/**
 How the home page reads an article record of loose shape: a Strapi v4
 entry wraps its fields in `attributes`, other shapes carry them directly,
 and the field names may be lower-case or capitalised.
 */
module Articles {
  import opened Js
  import opened JsStrings

  /** `article.attributes || article`: the record the fields are read from. */
  function AttrOf(article: Value): (r: Completion<Value>)
    ensures r.Throw? <==> Nullish(article)
    ensures r.Throw? ==> r.error == ReadOfNullish("attributes")
    ensures r.Normal? ==> !Nullish(r.value)
    ensures r.Normal? ==>
              if Truthy(Prop(article, Attributes)) then r.value == Prop(article, Attributes)
              else r.value == article
  {
    var wrapped :- Get(article, Attributes);
    Normal(Or(wrapped, article))
  }

  /** `attr.f || attr.g || fallback`. */
  function Fallback(attr: Value, f: Field, g: Field, fallback: Value): Value
    requires !Nullish(attr)
  {
    Or(Or(Prop(attr, f), Prop(attr, g)), fallback)
  }

  /** The category the filter and the dropdown use: `category`, else
      `Category`, else 'Uncategorized'. It is never falsy. */
  function CategoryFrom(attr: Value): (c: Value)
    requires !Nullish(attr)
    ensures Truthy(c)
    ensures Truthy(Prop(attr, Category)) ==> c == Prop(attr, Category)
    ensures !Truthy(Prop(attr, Category)) && Truthy(Prop(attr, CapCategory)) ==> c == Prop(attr, CapCategory)
    ensures !Truthy(Prop(attr, Category)) && !Truthy(Prop(attr, CapCategory)) ==> c == Str("Uncategorized")
  {
    Fallback(attr, Category, CapCategory, Str("Uncategorized"))
  }

  /** An article's filter category; reading it throws only for a null or
      undefined article. */
  function ArticleCategory(article: Value): (r: Completion<Value>)
    ensures r.Throw? <==> Nullish(article)
    ensures r.Throw? ==> r.error == ReadOfNullish("attributes")
    ensures r.Normal? ==> r.value == CategoryFrom(AttrOf(article).value) && Truthy(r.value)
  {
    var attr :- AttrOf(article);
    Normal(CategoryFrom(attr))
  }

  /** The category printed on a card, which falls back to '' instead. */
  function DisplayCategory(attr: Value): Value
    requires !Nullish(attr)
  {
    Fallback(attr, Category, CapCategory, Str(""))
  }

  /** The card shows no category exactly when the filter files the article
      under 'Uncategorized' for want of a field; otherwise both agree. */
  lemma CategoryFallbacksAgree(attr: Value)
    requires !Nullish(attr)
    ensures Truthy(DisplayCategory(attr)) ==> CategoryFrom(attr) == DisplayCategory(attr)
    ensures !Truthy(DisplayCategory(attr)) <==>
            !Truthy(Prop(attr, Category)) && !Truthy(Prop(attr, CapCategory))
    ensures !Truthy(DisplayCategory(attr)) ==>
            DisplayCategory(attr) == Str("") && CategoryFrom(attr) == Str("Uncategorized")
  {
  }

  /** `attr.tags || attr.Tags`. */
  function RawTags(attr: Value): Value
    requires !Nullish(attr)
  {
    Or(Prop(attr, Tags), Prop(attr, CapTags))
  }

  /** The searchable tag text: an array of tags joined with ", ", any other
      truthy tag value as it is, and '' when there are no tags. Joining
      throws only for an element with its own `toString` property. */
  function TagText(attr: Value, host: Host): (r: Completion<Value>)
    requires !Nullish(attr)
    ensures RawTags(attr).Arr? ==>
              (r.Normal? <==> Join(RawTags(attr).elems, ", ", host).Normal?) &&
              (r.Normal? ==> r.value == Str(Join(RawTags(attr).elems, ", ", host).value))
    ensures !RawTags(attr).Arr? && Truthy(RawTags(attr)) ==> r == Normal(RawTags(attr))
    ensures !Truthy(RawTags(attr)) ==> r == Normal(Str(""))
    ensures r.Throw? ==> r.error == NoPrimitive
  {
    var tags := RawTags(attr);
    if tags.Arr? then
      JoinThrowsNoPrimitive(tags.elems, ", ", host);
      var joined :- Join(tags.elems, ", ", host);
      Normal(Str(joined))
    else
      Normal(Or(tags, Str("")))
  }

  /** Every string tag of a tag array occurs in the tag text. */
  lemma TagTextContainsTags(attr: Value, host: Host, i: int)
    requires !Nullish(attr)
    requires RawTags(attr).Arr? && 0 <= i < |RawTags(attr).elems|
    requires RawTags(attr).elems[i].Str?
    requires TagText(attr, host).Normal?
    ensures TagText(attr, host).value.Str?
    ensures Contains(TagText(attr, host).value.s, RawTags(attr).elems[i].s)
  {
    JoinContainsEach(RawTags(attr).elems, ", ", host, i);
  }
}
