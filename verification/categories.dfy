/**
 The category dropdown: every article's filter category is added to a
 `Set`, and the options are 'All' followed by the Set's contents. A JS Set
 iterates in insertion order, so it is kept here as the sequence of its
 elements in the order they were first added.
 */
module CategoryList {
  import opened Js
  import opened Articles
  import opened Seqs

  /** `set.add(v)`. Primitives are found by value (SameValueZero; JSON has
      no NaN, and zero is falsy so it is never a category). Arrays and
      objects are found by reference, and each one read here is a distinct
      object built by `JSON.parse`, so adding one always appends it. */
  function SetAdd(added: seq<Value>, v: Value): seq<Value> {
    if IsPrimitive(v) && v in added then added else added + [v]
  }

  /** Reference order: every primitive category at its first occurrence,
      every array or object category at each of its occurrences. */
  function FirstSeen(cats: seq<Value>): seq<Value>
    decreases |cats|
  {
    if |cats| == 0 then
      []
    else
      var prefix := cats[..|cats| - 1];
      var last := cats[|cats| - 1];
      FirstSeen(prefix) + (if IsPrimitive(last) && last in prefix then [] else [last])
  }

  /** The filter category of each article, in article order. */
  function Categories(articles: seq<Value>): seq<Value>
    requires forall i :: 0 <= i < |articles| ==> !Nullish(articles[i])
  {
    seq(|articles|, i requires 0 <= i < |articles| => ArticleCategory(articles[i]).value)
  }

  /** Lines 30-36 of the page: a `forEach` over the articles that adds each
      category to the Set, then 'All' in front of the Set's contents. Reading
      a category throws only for a null or undefined article. */
  method CategoryOptions(articles: seq<Value>) returns (r: Completion<seq<Value>>)
    ensures r.Throw? <==> exists i :: 0 <= i < |articles| && Nullish(articles[i])
    ensures r.Throw? ==> r.error == ReadOfNullish("attributes")
    ensures r.Normal? ==> r.value == [Str("All")] + FirstSeen(Categories(articles))
  {
    var categorySet: seq<Value> := [];
    ghost var seen: seq<Value> := [];
    var i := 0;
    while i < |articles|
      invariant 0 <= i <= |articles|
      invariant forall j :: 0 <= j < i ==> !Nullish(articles[j])
      invariant seen == Categories(articles[..i])
      invariant categorySet == FirstSeen(seen)
    {
      var category :- ArticleCategory(articles[i]);
      FirstSeenMembers(seen);
      assert (seen + [category])[..|seen|] == seen;
      categorySet := SetAdd(categorySet, category);
      seen := seen + [category];
      i := i + 1;
    }
    assert articles[..i] == articles;
    return Normal([Str("All")] + categorySet);
  }

  /** The de-duplicated list holds exactly the categories that occur. */
  lemma {:induction false} FirstSeenMembers(cats: seq<Value>)
    ensures forall x :: x in FirstSeen(cats) <==> x in cats
    decreases |cats|
  {
    if |cats| > 0 {
      var prefix := cats[..|cats| - 1];
      FirstSeenMembers(prefix);
      assert cats == prefix + [cats[|cats| - 1]];
    }
  }

  /** No primitive category occurs twice. */
  lemma {:induction false} FirstSeenDistinct(cats: seq<Value>)
    ensures forall i, j :: 0 <= i < j < |FirstSeen(cats)| && IsPrimitive(FirstSeen(cats)[i]) ==>
                           FirstSeen(cats)[i] != FirstSeen(cats)[j]
    decreases |cats|
  {
    if |cats| > 0 {
      var prefix := cats[..|cats| - 1];
      FirstSeenDistinct(prefix);
      FirstSeenMembers(prefix);
    }
  }

  /** Each primitive category that occurs is listed exactly once; each array
      or object category is listed as often as it occurs. */
  lemma {:induction false} FirstSeenCounts(cats: seq<Value>)
    ensures forall x :: IsPrimitive(x) && x in cats ==> multiset(FirstSeen(cats))[x] == 1
    ensures forall x :: !IsPrimitive(x) ==> multiset(FirstSeen(cats))[x] == multiset(cats)[x]
    decreases |cats|
  {
    if |cats| > 0 {
      var prefix := cats[..|cats| - 1];
      var last := cats[|cats| - 1];
      FirstSeenCounts(prefix);
      FirstSeenMembers(prefix);
      assert cats == prefix + [last];
    }
  }

  /** The list keeps the categories in the order they occur. */
  lemma {:induction false} FirstSeenSubsequence(cats: seq<Value>)
    ensures IsSubsequence(FirstSeen(cats), cats)
    decreases |cats|
  {
    if |cats| > 0 {
      var prefix := cats[..|cats| - 1];
      var last := cats[|cats| - 1];
      FirstSeenSubsequence(prefix);
      assert cats == prefix + [last];
      if IsPrimitive(last) && last in prefix {
        assert FirstSeen(cats) == FirstSeen(prefix);
        SubsequenceAppend(FirstSeen(prefix), prefix, last);
      } else {
        SubsequenceSnoc(FirstSeen(prefix), prefix, last);
      }
    }
  }

  /** Two primitive categories are listed in the order of their first occurrences. */
  lemma {:induction false} FirstSeenOrder(cats: seq<Value>, p: Value, q: Value)
    requires IsPrimitive(p) && IsPrimitive(q)
    requires p in cats && q in cats
    requires IndexOf(cats, p) < IndexOf(cats, q)
    ensures p in FirstSeen(cats) && q in FirstSeen(cats)
    ensures IndexOf(FirstSeen(cats), p) < IndexOf(FirstSeen(cats), q)
    decreases |cats|
  {
    FirstSeenMembers(cats);
    var prefix := cats[..|cats| - 1];
    var last := cats[|cats| - 1];
    assert cats == prefix + [last];
    FirstSeenMembers(prefix);
    var before := FirstSeen(prefix);
    var added := if IsPrimitive(last) && last in prefix then [] else [last];
    assert FirstSeen(cats) == before + added;
    assert p in prefix by {
      assert cats[IndexOf(cats, p)] == p;
    }
    IndexOfAppend(prefix, [last], p);
    IndexOfAppend(before, added, p);
    if q in prefix {
      IndexOfAppend(prefix, [last], q);
      FirstSeenOrder(prefix, p, q);
      IndexOfAppend(before, added, q);
    } else {
      assert q == last;
      assert FirstSeen(cats) == before + [q];
      assert q !in before;
      assert (before + [q])[|before|] == q;
    }
  }

  /** What the dropdown offers, stated of the articles: 'All' first, then
      every article's category, each primitive one exactly once, with no
      primitive repeated, in article order. A category that is itself 'All'
      is not merged with the leading option. */
  lemma CategoryOptionsSpec(articles: seq<Value>)
    requires forall i :: 0 <= i < |articles| ==> !Nullish(articles[i])
    ensures var options := [Str("All")] + FirstSeen(Categories(articles));
            && options[0] == Str("All")
            && (forall i :: 0 <= i < |articles| ==> ArticleCategory(articles[i]).value in options[1..])
            && (forall x :: x in options[1..] ==> exists i :: 0 <= i < |articles| && x == ArticleCategory(articles[i]).value)
            && (forall i :: 0 <= i < |articles| && IsPrimitive(ArticleCategory(articles[i]).value) ==>
                  multiset(options[1..])[ArticleCategory(articles[i]).value] == 1)
            && IsSubsequence(options[1..], Categories(articles))
  {
    var cats := Categories(articles);
    var options := [Str("All")] + FirstSeen(cats);
    assert options[1..] == FirstSeen(cats);
    FirstSeenMembers(cats);
    FirstSeenCounts(cats);
    FirstSeenSubsequence(cats);
    forall x | x in options[1..]
      ensures exists i :: 0 <= i < |articles| && x == ArticleCategory(articles[i]).value
    {
      var i :| 0 <= i < |cats| && cats[i] == x;
    }
    forall i | 0 <= i < |articles|
      ensures ArticleCategory(articles[i]).value in options[1..]
    {
      assert cats[i] == ArticleCategory(articles[i]).value;
    }
  }

  /** Each primitive category is listed where it first occurs among the
      article categories: `FirstSeen` picks, in increasing order, positions
      of `cats` whose values it lists, and the position it picks for a
      primitive value is that value's first occurrence. */
  lemma {:induction false} FirstSeenPicksFirstOccurrences(cats: seq<Value>)
    ensures exists idx :: Picks(cats, FirstSeen(cats), idx)
    decreases |cats|
  {
    if |cats| == 0 {
      assert Picks(cats, FirstSeen(cats), []);
    } else {
      var prefix := cats[..|cats| - 1];
      var last := cats[|cats| - 1];
      assert cats == prefix + [last];
      FirstSeenPicksFirstOccurrences(prefix);
      var idx :| Picks(prefix, FirstSeen(prefix), idx);
      if IsPrimitive(last) && last in prefix {
        assert FirstSeen(cats) == FirstSeen(prefix);
        PicksLonger(prefix, last, FirstSeen(prefix), idx);
        assert Picks(cats, FirstSeen(cats), idx);
      } else {
        assert FirstSeen(cats) == FirstSeen(prefix) + [last];
        PicksAppend(prefix, last, FirstSeen(prefix), idx);
        assert Picks(cats, FirstSeen(cats), idx + [|prefix|]);
      }
    }
  }

  /** Picks from a prefix remain picks once one more category follows. */
  lemma PicksLonger(prefix: seq<Value>, last: Value, out: seq<Value>, idx: seq<int>)
    requires Picks(prefix, out, idx)
    ensures Picks(prefix + [last], out, idx)
  {
    forall x | x in prefix {
      IndexOfAppend(prefix, [last], x);
    }
  }

  /** A category seen for the first time, or an array or object category,
      is picked at its own position. */
  lemma PicksAppend(prefix: seq<Value>, last: Value, out: seq<Value>, idx: seq<int>)
    requires Picks(prefix, out, idx)
    requires !(IsPrimitive(last) && last in prefix)
    ensures Picks(prefix + [last], out + [last], idx + [|prefix|])
  {
    PicksLonger(prefix, last, out, idx);
  }

  /** `out` is read off `cats` at the increasing positions `idx`, each
      primitive value at its first position in `cats`. */
  ghost predicate Picks(cats: seq<Value>, out: seq<Value>, idx: seq<int>) {
    && |idx| == |out|
    && (forall j :: 0 <= j < |idx| ==> 0 <= idx[j] < |cats| && cats[idx[j]] == out[j])
    && (forall j, k :: 0 <= j < k < |idx| ==> idx[j] < idx[k])
    && (forall j :: 0 <= j < |idx| && IsPrimitive(out[j]) ==> out[j] in cats && idx[j] == IndexOf(cats, out[j]))
  }

  /** Whenever some article's category is literally 'All', the options
      list 'All' twice: the leading option and that category. */
  lemma AllMayRepeat(articles: seq<Value>, k: int)
    requires forall i :: 0 <= i < |articles| ==> !Nullish(articles[i])
    requires 0 <= k < |articles| && ArticleCategory(articles[k]).value == Str("All")
    ensures multiset([Str("All")] + FirstSeen(Categories(articles)))[Str("All")] == 2
  {
    CategoryOptionsSpec(articles);
    var options := [Str("All")] + FirstSeen(Categories(articles));
    assert options == [Str("All")] + options[1..];
    assert multiset(options[1..])[Str("All")] == 1;
  }
}
