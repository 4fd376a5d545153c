/**
 The search box and the category dropdown: `articles.filter(...)` keeps an
 article when the lower-cased search text occurs in its lower-cased title or
 tag text, and its category is the selected one (or 'All' is selected).
 */
module ArticleFilter {
  import opened Js
  import opened JsStrings
  import opened Articles
  import opened Seqs

  /** The callback runs to completion on the record `attr`: the tag text can
      be built, the title is a string, and the tag text is a string whenever
      the title alone does not match (`||` skips the tags otherwise). */
  ghost predicate Evaluates(attr: Value, search: string, host: Host)
    requires !Nullish(attr)
  {
    var title := Prop(attr, Title);
    var tags := TagText(attr, host);
    && tags.Normal?
    && title.Str?
    && (Contains(host.lower(title.s), host.lower(search)) || tags.value.Str?)
  }

  /** The lower-cased search text occurs in the lower-cased title or tag text. */
  ghost predicate MatchesSearch(attr: Value, search: string, host: Host)
    requires !Nullish(attr)
  {
    var needle := host.lower(search);
    var title := Prop(attr, Title);
    var tags := TagText(attr, host);
    || (title.Str? && Contains(host.lower(title.s), needle))
    || (tags.Normal? && tags.value.Str? && Contains(host.lower(tags.value.s), needle))
  }

  /** 'All' is selected, or the selection is the article's category. A
      selection is always a string, so `===` never equates it with a
      non-string category. */
  predicate MatchesCategory(attr: Value, selected: string)
    requires !Nullish(attr)
  {
    selected == "All" || CategoryFrom(attr) == Str(selected)
  }

  /** The callback returns normally for `article`. */
  ghost predicate Completes(article: Value, search: string, host: Host) {
    !Nullish(article) && Evaluates(AttrOf(article).value, search, host)
  }

  /** The callback returns true for `article`. */
  ghost predicate Selected(article: Value, search: string, selected: string, host: Host) {
    && Completes(article, search, host)
    && MatchesSearch(AttrOf(article).value, search, host)
    && MatchesCategory(AttrOf(article).value, selected)
  }

  /** The filter callback, evaluated in the order the page evaluates it. */
  function Keep(article: Value, search: string, selected: string, host: Host): (r: Completion<bool>)
    ensures r.Normal? <==> Completes(article, search, host)
    ensures r.Normal? ==> (r.value <==> Selected(article, search, selected, host))
    ensures Nullish(article) ==> r == Throw(ReadOfNullish("attributes"))
    ensures r.Throw? && !Nullish(article) ==>
              r.error in {NoPrimitive, ReadOfNullish("toLowerCase"), NotCallable("toLowerCase")}
  {
    var attr :- AttrOf(article);
    var tags :- TagText(attr, host);
    var category := CategoryFrom(attr);
    var needle := host.lower(search);
    var title :- LowerCase(Prop(attr, Title), host);
    var matchesSearch :-
      if Includes(title, needle) then Normal(true)
      else
        var text :- LowerCase(tags, host);
        Normal(Includes(text, needle));
    var matchesCategory := selected == "All" || category == Str(selected);
    Normal(matchesSearch && matchesCategory)
  }

  /** `articles.filter(Keep)`: visits the articles from left to right and
      stops at the first callback that throws. */
  function Filter(articles: seq<Value>, search: string, selected: string, host: Host): Completion<seq<Value>>
    decreases |articles|
  {
    if |articles| == 0 then
      Normal([])
    else
      var keep :- Keep(articles[0], search, selected, host);
      var rest :- Filter(articles[1..], search, selected, host);
      Normal(if keep then [articles[0]] + rest else rest)
  }

  /** Filtering completes exactly when the callback completes on every article. */
  lemma {:induction false} FilterNormalIff(articles: seq<Value>, search: string, selected: string, host: Host)
    ensures Filter(articles, search, selected, host).Normal? <==>
            forall i :: 0 <= i < |articles| ==> Completes(articles[i], search, host)
    decreases |articles|
  {
    if |articles| > 0 {
      FilterNormalIff(articles[1..], search, selected, host);
      assert forall i :: 0 < i < |articles| ==> articles[1..][i - 1] == articles[i];
    }
  }

  /** A failed filter reports the error of the first article whose callback throws. */
  lemma {:induction false} FilterFirstError(articles: seq<Value>, search: string, selected: string, host: Host)
    requires Filter(articles, search, selected, host).Throw?
    ensures exists i :: 0 <= i < |articles| &&
                        Keep(articles[i], search, selected, host) == Throw(Filter(articles, search, selected, host).error) &&
                        forall j :: 0 <= j < i ==> Completes(articles[j], search, host)
    decreases |articles|
  {
    var e := Filter(articles, search, selected, host).error;
    if Keep(articles[0], search, selected, host).Throw? {
      assert Keep(articles[0], search, selected, host) == Throw(e);
    } else {
      FilterFirstError(articles[1..], search, selected, host);
      var i :| 0 <= i < |articles[1..]| &&
               Keep(articles[1..][i], search, selected, host) == Throw(e) &&
               forall j :: 0 <= j < i ==> Completes(articles[1..][j], search, host);
      assert forall j :: 0 < j < i + 1 ==> articles[j] == articles[1..][j - 1];
      assert Keep(articles[i + 1], search, selected, host) == Throw(e);
    }
  }

  /** What a completed filter returns: the selected articles, in their
      original order, each as often as it occurs in the input. */
  lemma {:induction false} FilterContents(articles: seq<Value>, search: string, selected: string, host: Host)
    requires Filter(articles, search, selected, host).Normal?
    ensures IsSubsequence(Filter(articles, search, selected, host).value, articles)
    ensures forall x :: x in Filter(articles, search, selected, host).value <==>
                        x in articles && Selected(x, search, selected, host)
    ensures forall x :: multiset(Filter(articles, search, selected, host).value)[x] ==
                        if Selected(x, search, selected, host) then multiset(articles)[x] else 0
    decreases |articles|
  {
    if |articles| > 0 {
      var head := articles[0];
      var tail := articles[1..];
      FilterContents(tail, search, selected, host);
      var rest := Filter(tail, search, selected, host).value;
      assert articles == [head] + tail;
      if Selected(head, search, selected, host) {
        assert Filter(articles, search, selected, host).value == [head] + rest;
        assert ([head] + rest)[1..] == rest;
      } else {
        assert Filter(articles, search, selected, host).value == rest;
      }
    }
  }

  /** A sequence of selected articles passes the filter unchanged. */
  lemma {:induction false} FilterKeepsSelected(articles: seq<Value>, search: string, selected: string, host: Host)
    requires forall i :: 0 <= i < |articles| ==> Selected(articles[i], search, selected, host)
    ensures Filter(articles, search, selected, host) == Normal(articles)
    decreases |articles|
  {
    if |articles| > 0 {
      assert forall i :: 0 <= i < |articles[1..]| ==> articles[1..][i] == articles[i + 1];
      FilterKeepsSelected(articles[1..], search, selected, host);
      assert [articles[0]] + articles[1..] == articles;
    }
  }

  /** Filtering the result again with the same search and selection changes nothing. */
  lemma {:induction false} FilterIdempotent(articles: seq<Value>, search: string, selected: string, host: Host)
    requires Filter(articles, search, selected, host).Normal?
    ensures Filter(Filter(articles, search, selected, host).value, search, selected, host) ==
            Filter(articles, search, selected, host)
  {
    var r := Filter(articles, search, selected, host).value;
    FilterContents(articles, search, selected, host);
    assert forall i :: 0 <= i < |r| ==> r[i] in r;
    FilterKeepsSelected(r, search, selected, host);
  }

  /** Choosing a category narrows the 'All' result for the same search: the
      filter completes in both cases or in neither, and the narrowed result
      is the 'All' result filtered again by the category. */
  lemma {:induction false} FilterNarrowing(articles: seq<Value>, search: string, category: string, host: Host)
    ensures Filter(articles, search, category, host).Normal? <==> Filter(articles, search, "All", host).Normal?
    ensures Filter(articles, search, category, host).Normal? ==>
              Filter(articles, search, category, host) ==
              Filter(Filter(articles, search, "All", host).value, search, category, host)
    decreases |articles|
  {
    FilterNormalIff(articles, search, category, host);
    FilterNormalIff(articles, search, "All", host);
    if |articles| > 0 && Filter(articles, search, category, host).Normal? {
      FilterNarrowing(articles[1..], search, category, host);
      var x := articles[0];
      var all := Filter(articles[1..], search, "All", host).value;
      if Keep(x, search, "All", host).value {
        assert Filter(articles, search, "All", host).value == [x] + all;
        assert ([x] + all)[1..] == all;
      }
    }
  }

  /** The narrowed result is an order-preserving part of the 'All' result. */
  lemma {:induction false} NarrowingIsSubsequence(articles: seq<Value>, search: string, category: string, host: Host)
    requires Filter(articles, search, "All", host).Normal?
    ensures Filter(articles, search, category, host).Normal?
    ensures IsSubsequence(Filter(articles, search, category, host).value,
                          Filter(articles, search, "All", host).value)
  {
    FilterNarrowing(articles, search, category, host);
    FilterContents(Filter(articles, search, "All", host).value, search, category, host);
  }

  /** The record can be shown at all: it has a string title and buildable tag text. */
  ghost predicate Presentable(article: Value, host: Host) {
    && !Nullish(article)
    && Prop(AttrOf(article).value, Title).Str?
    && TagText(AttrOf(article).value, host).Normal?
  }

  /** With an empty search and 'All' selected the page lists every article,
      and throws only if some article cannot be presented. */
  lemma {:induction false} EmptySearchKeepsAll(articles: seq<Value>, host: Host)
    requires host.lower("") == ""
    ensures Filter(articles, "", "All", host).Normal? <==>
            forall i :: 0 <= i < |articles| ==> Presentable(articles[i], host)
    ensures Filter(articles, "", "All", host).Normal? ==> Filter(articles, "", "All", host).value == articles
  {
    forall x | Presentable(x, host)
      ensures Selected(x, "", "All", host)
    {
      IncludesEmpty(host.lower(Prop(AttrOf(x).value, Title).s));
    }
    FilterNormalIff(articles, "", "All", host);
    if forall i :: 0 <= i < |articles| ==> Presentable(articles[i], host) {
      FilterKeepsSelected(articles, "", "All", host);
    }
  }
}
