/**
 The two string operations of the home page: `String.prototype.includes`
 and `Array.prototype.join`.
 */
module JsStrings {
  import opened Js

  /** `needle` occurs in `hay` at position `i`. */
  predicate OccursAt(hay: string, needle: string, i: int) {
    0 <= i && i + |needle| <= |hay| && hay[i..i + |needle|] == needle
  }

  /** The declarative meaning of substring containment. */
  ghost predicate Contains(hay: string, needle: string) {
    exists i :: OccursAt(hay, needle, i)
  }

  /** `hay.includes(needle)`: scans the start positions from left to right. */
  function Includes(hay: string, needle: string): (r: bool)
    ensures r <==> Contains(hay, needle)
    decreases |hay|
  {
    if |needle| > |hay| then
      assert forall i :: !OccursAt(hay, needle, i);
      false
    else if hay[..|needle|] == needle then
      assert OccursAt(hay, needle, 0);
      true
    else
      var r := Includes(hay[1..], needle);
      ShiftOccurrence(hay, needle);
      r
  }

  /** Moving the scan one position right loses only the occurrence at 0. */
  lemma ShiftOccurrence(hay: string, needle: string)
    requires |needle| <= |hay|
    requires hay[..|needle|] != needle
    ensures Contains(hay, needle) <==> Contains(hay[1..], needle)
  {
    if Contains(hay, needle) {
      var i :| OccursAt(hay, needle, i);
      assert i != 0;
      assert hay[1..][i - 1..i - 1 + |needle|] == hay[i..i + |needle|];
      assert OccursAt(hay[1..], needle, i - 1);
    }
    if Contains(hay[1..], needle) {
      var j :| OccursAt(hay[1..], needle, j);
      assert hay[j + 1..j + 1 + |needle|] == hay[1..][j..j + |needle|];
      assert OccursAt(hay, needle, j + 1);
    }
  }

  /** Every string includes the empty string. */
  lemma IncludesEmpty(hay: string)
    ensures Includes(hay, "")
  {
  }

  /** A string includes itself and each of its contiguous pieces. */
  lemma IncludesPiece(a: string, b: string, c: string)
    ensures Includes(a + b + c, b)
  {
    var hay := a + b + c;
    assert hay[|a|..|a| + |b|] == b;
    assert OccursAt(hay, b, |a|);
  }

  /** How `join` turns one element into text: null and undefined become the
      empty string, strings are taken as they are, nested arrays are joined
      with ",", and a plain object becomes "[object Object]". An object with
      its own `toString` property has no callable conversion (JSON values are
      never functions), so the conversion throws. */
  function ElementText(v: Value, host: Host): Completion<string>
    decreases v
  {
    match v
    case Undefined => Normal("")
    case Null => Normal("")
    case Bool(b) => Normal(if b then "true" else "false")
    case Num(n) => Normal(host.numberText(n))
    case Str(s) => Normal(s)
    case Arr(xs) => Join(xs, ",", host)
    case Obj(m) => if "toString" in m then Throw(NoPrimitive) else Normal("[object Object]")
  }

  /** `xs.join(sep)`: converts the elements from left to right and stops at
      the first conversion that throws. */
  function Join(xs: seq<Value>, sep: string, host: Host): Completion<string>
    decreases xs
  {
    if |xs| == 0 then
      Normal("")
    else
      var first :- ElementText(xs[0], host);
      if |xs| == 1 then
        Normal(first)
      else
        var rest :- Join(xs[1..], sep, host);
        Normal(first + sep + rest)
  }

  /** Text found in a string is also found once more text is put around it. */
  lemma ContainsExtended(pre: string, mid: string, post: string, t: string)
    requires Contains(mid, t)
    ensures Contains(pre + mid + post, t)
  {
    var k :| OccursAt(mid, t, k);
    var hay := pre + mid + post;
    assert hay[|pre| + k..|pre| + k + |t|] == mid[k..k + |t|];
    assert OccursAt(hay, t, |pre| + k);
  }

  /** Joining succeeds exactly when every element converts. */
  lemma {:induction false} JoinNormalIff(xs: seq<Value>, sep: string, host: Host)
    ensures Join(xs, sep, host).Normal? <==>
            forall i :: 0 <= i < |xs| ==> ElementText(xs[i], host).Normal?
    decreases xs
  {
    if |xs| > 1 {
      JoinNormalIff(xs[1..], sep, host);
      assert forall i :: 0 <= i < |xs[1..]| ==> xs[1..][i] == xs[i + 1];
    }
  }

  /** The joined text contains every element's text, so a search for one
      tag's text finds the joined tag list. */
  lemma {:induction false} JoinContainsEach(xs: seq<Value>, sep: string, host: Host, i: int)
    requires 0 <= i < |xs|
    requires Join(xs, sep, host).Normal?
    ensures ElementText(xs[i], host).Normal?
    ensures Contains(Join(xs, sep, host).value, ElementText(xs[i], host).value)
    decreases xs
  {
    var first := ElementText(xs[0], host).value;
    if i == 0 {
      IncludesPiece("", first, "");
      assert "" + first + "" == first;
      if |xs| == 1 {
        assert Join(xs, sep, host).value == "" + first + "";
      } else {
        var rest := Join(xs[1..], sep, host).value;
        assert Join(xs, sep, host).value == "" + first + (sep + rest);
        ContainsExtended("", first, sep + rest, first);
      }
    } else {
      var rest := Join(xs[1..], sep, host).value;
      JoinContainsEach(xs[1..], sep, host, i - 1);
      assert xs[1..][i - 1] == xs[i];
      assert Join(xs, sep, host).value == (first + sep) + rest + "";
      ContainsExtended(first + sep, rest, "", ElementText(xs[i], host).value);
    }
  }

  /** The only error a join raises is the missing primitive conversion. */
  lemma {:induction false} JoinThrowsNoPrimitive(xs: seq<Value>, sep: string, host: Host)
    ensures Join(xs, sep, host).Throw? ==> Join(xs, sep, host).error == NoPrimitive
    decreases xs
  {
    if |xs| > 0 {
      ElementThrowsNoPrimitive(xs[0], host);
      if |xs| > 1 {
        JoinThrowsNoPrimitive(xs[1..], sep, host);
      }
    }
  }

  lemma {:induction false} ElementThrowsNoPrimitive(v: Value, host: Host)
    ensures ElementText(v, host).Throw? ==> ElementText(v, host).error == NoPrimitive
    decreases v
  {
    if v.Arr? {
      JoinThrowsNoPrimitive(v.elems, ",", host);
    }
  }
}
