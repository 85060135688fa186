/**
 * Typed value accessors: the first match, or all matches, of a url projected onto one
 * value field (valueString, valueInteger, valueBoolean, valueMarkdown), and the boolean
 * setter built on setExtension.
 */
module TypedAccessors {
  import opened Wrappers
  import opened ExtensionModel
  import opened ExtensionLocator
  import opened ExtensionMutator

  /**
   * The reference meaning of the single-value getters: the first entry with the url exists
   * and carries exactly `value`.
   */
  predicate FirstValueIs(s: seq<Extension>, url: string, value: Value)
  {
    FirstIndex(s, url).Some? && s[FirstIndex(s, url).value].value == value
  }

  /** getExtensionStringValue: the valueString of the first match, if it carries one. */
  function GetExtensionStringValue(element: Element?, url: string): (r: Option<string>)
    reads element
    ensures r.Some? ==> FirstValueIs(ListOf(element), url, VString(r.value))
    ensures r.None? ==> forall str :: !FirstValueIs(ListOf(element), url, VString(str))
  {
    match GetExtension(element, url)
    case None => None
    case Some(ext) => if ext.value.VString? then Some(ext.value.valueString) else None
  }

  /** getExtensionIntegerValue: the valueInteger of the first match, if it carries one. */
  function GetExtensionIntegerValue(element: Element?, url: string): (r: Option<int>)
    reads element
    ensures r.Some? ==> FirstValueIs(ListOf(element), url, VInteger(r.value))
    ensures r.None? ==> forall n :: !FirstValueIs(ListOf(element), url, VInteger(n))
  {
    match GetExtension(element, url)
    case None => None
    case Some(ext) => if ext.value.VInteger? then Some(ext.value.valueInteger) else None
  }

  /** getExtensionBooleanValue: the valueBoolean of the first match, if it carries one. */
  function GetExtensionBooleanValue(element: Element?, url: string): (r: Option<bool>)
    reads element
    ensures r.Some? ==> FirstValueIs(ListOf(element), url, VBoolean(r.value))
    ensures r.None? ==> forall b :: !FirstValueIs(ListOf(element), url, VBoolean(b))
  {
    match GetExtension(element, url)
    case None => None
    case Some(ext) => if ext.value.VBoolean? then Some(ext.value.valueBoolean) else None
  }

  /**
   * getExtensionMarkdownValue: the valueMarkdown of the first match, if it carries one.
   * The source runs its own filter here instead of calling getExtension.
   */
  function GetExtensionMarkdownValue(element: Element?, url: string): (r: Option<string>)
    reads element
    ensures r.Some? ==> FirstValueIs(ListOf(element), url, VMarkdown(r.value))
    ensures r.None? ==> forall md :: !FirstValueIs(ListOf(element), url, VMarkdown(md))
  {
    if element == null || element.extension.None? then None
    else
      var extValues := Matches(element.extension.value, url);
      MatchesFromFirst(element.extension.value, url);
      if |extValues| > 0 && extValues[0].value.VMarkdown? then Some(extValues[0].value.valueMarkdown)
      else None
  }

  /**
   * The `filter(!!item.valueString)` then `map(item.valueString)` of getExtensionStringValues:
   * the non-empty valueStrings, in order. An empty string is falsy and is dropped.
   */
  function NonEmptyStrings(s: seq<Extension>): (r: seq<string>)
    ensures |r| <= |s|
  {
    if s == [] then []
    else if s[0].value.VString? && s[0].value.valueString != "" then
      [s[0].value.valueString] + NonEmptyStrings(s[1..])
    else NonEmptyStrings(s[1..])
  }

  /** A string is listed exactly when it is the non-empty valueString of some entry. */
  lemma {:induction false} NonEmptyStringsMembership(s: seq<Extension>)
    ensures forall str :: str in NonEmptyStrings(s) <==> str != "" && exists i :: 0 <= i < |s| && s[i].value == VString(str)
  {
    if s != [] {
      NonEmptyStringsMembership(s[1..]);
      assert forall i :: 1 <= i < |s| ==> s[i] == s[1..][i - 1];
      assert forall i :: 0 <= i < |s[1..]| ==> s[1..][i] == s[i + 1];
    }
  }

  lemma {:induction false} NonEmptyStringsConcat(a: seq<Extension>, b: seq<Extension>)
    ensures NonEmptyStrings(a + b) == NonEmptyStrings(a) + NonEmptyStrings(b)
  {
    if a != [] {
      assert (a + b)[1..] == a[1..] + b;
      NonEmptyStringsConcat(a[1..], b);
    } else {
      assert a + b == b;
    }
  }

  /** Every string NonEmptyStrings keeps comes from a non-empty valueString whose rank is its position. */
  predicate StringOrigin(m: seq<Extension>, k: nat)
  {
    k < |NonEmptyStrings(m)| &&
    exists j :: 0 <= j < |m| && m[j].value.VString? && m[j].value.valueString != "" &&
      |NonEmptyStrings(m[..j])| == k && NonEmptyStrings(m)[k] == m[j].value.valueString
  }

  lemma {:induction false} NonEmptyStringsOrigin(m: seq<Extension>)
    ensures forall k :: 0 <= k < |NonEmptyStrings(m)| ==> StringOrigin(m, k)
  {
    if m != [] {
      var q, q' := NonEmptyStrings(m), NonEmptyStrings(m[1..]);
      var keep := m[0].value.VString? && m[0].value.valueString != "";
      NonEmptyStringsOrigin(m[1..]);
      forall k | 0 <= k < |q|
        ensures StringOrigin(m, k)
      {
        if keep && k == 0 {
          assert m[..0] == [];
          assert q[0] == m[0].value.valueString;
        } else {
          var k' := if keep then k - 1 else k;
          assert 0 <= k' < |q'| && q[k] == q'[k'];
          assert StringOrigin(m[1..], k');
          var j' :| 0 <= j' < |m[1..]| && m[1..][j'].value.VString? && m[1..][j'].value.valueString != "" &&
            |NonEmptyStrings(m[1..][..j'])| == k' && q'[k'] == m[1..][j'].value.valueString;
          assert m[..j' + 1] == [m[0]] + m[1..][..j'];
          NonEmptyStringsConcat([m[0]], m[1..][..j']);
          assert [m[0]][1..] == [];
          assert m[j' + 1] == m[1..][j'];
          assert |NonEmptyStrings(m[..j' + 1])| == k;
        }
      }
    }
  }

  /** The entries whose string getExtensionStringValues reports: the url, and a non-empty valueString. */
  predicate KeptString(x: Extension, url: string)
  {
    x.url == url && x.value.VString? && x.value.valueString != ""
  }

  /**
   * `r` lists the non-empty valueStrings of the entries of `s` with the url, in order and
   * nothing else: each such string sits at its rank among them, and each position of `r`
   * holds the string of that rank.
   */
  predicate RankedStrings(s: seq<Extension>, url: string, r: seq<string>)
  {
    (forall i :: 0 <= i < |s| && KeptString(s[i], url) ==>
      |NonEmptyStrings(Matches(s[..i], url))| < |r| && r[|NonEmptyStrings(Matches(s[..i], url))|] == s[i].value.valueString) &&
    (forall k :: 0 <= k < |r| ==> StringRankedAt(s, url, r, k))
  }

  /** Position `k` of `r` holds the string of a kept entry of `s` whose rank is `k`. */
  predicate StringRankedAt(s: seq<Extension>, url: string, r: seq<string>, k: nat)
  {
    k < |r| &&
    exists i :: 0 <= i < |s| && KeptString(s[i], url) &&
      |NonEmptyStrings(Matches(s[..i], url))| == k && r[k] == s[i].value.valueString
  }

  /** The string of a kept entry sits after the strings of the earlier matches. */
  lemma NonEmptyMatchesAt(s: seq<Extension>, url: string, i: nat)
    requires i < |s| && KeptString(s[i], url)
    ensures var before := |NonEmptyStrings(Matches(s[..i], url))|;
      before < |NonEmptyStrings(Matches(s, url))| &&
      NonEmptyStrings(Matches(s, url))[before] == s[i].value.valueString
  {
    assert s == s[..i] + [s[i]] + s[i + 1..];
    MatchesConcat(s[..i] + [s[i]], s[i + 1..], url);
    MatchesConcat(s[..i], [s[i]], url);
    assert Matches([s[i]], url) == [s[i]];
    var m1, m2 := Matches(s[..i], url), Matches(s[i + 1..], url);
    NonEmptyStringsConcat(m1 + [s[i]], m2);
    NonEmptyStringsConcat(m1, [s[i]]);
    assert NonEmptyStrings([s[i]]) == [s[i].value.valueString];
  }

  /** The strings of the matches are ranked. */
  lemma StringsRanked(s: seq<Extension>, url: string)
    ensures RankedStrings(s, url, NonEmptyStrings(Matches(s, url)))
  {
    var q := NonEmptyStrings(Matches(s, url));
    forall i | 0 <= i < |s| && KeptString(s[i], url)
      ensures |NonEmptyStrings(Matches(s[..i], url))| < |q| && q[|NonEmptyStrings(Matches(s[..i], url))|] == s[i].value.valueString
    {
      NonEmptyMatchesAt(s, url, i);
    }
    forall k | 0 <= k < |q|
      ensures StringRankedAt(s, url, q, k)
    {
      StringsRankedAt(s, url, k);
    }
  }

  /** Position `k` of the strings of the matches holds the string of the kept entry of rank `k`. */
  lemma StringsRankedAt(s: seq<Extension>, url: string, k: nat)
    requires k < |NonEmptyStrings(Matches(s, url))|
    ensures StringRankedAt(s, url, NonEmptyStrings(Matches(s, url)), k)
  {
    var m := Matches(s, url);
    var q := NonEmptyStrings(m);
    NonEmptyStringsOrigin(m);
    assert StringOrigin(m, k);
    var j :| 0 <= j < |m| && m[j].value.VString? && m[j].value.valueString != "" &&
      |NonEmptyStrings(m[..j])| == k && q[k] == m[j].value.valueString;
    MatchesOrigin(s, url);
    assert RankedAt(s, url, m, j);
    var i :| 0 <= i < |s| && s[i].url == url && |Matches(s[..i], url)| == j && m[j] == s[i];
    assert s == s[..i] + s[i..];
    MatchesConcat(s[..i], s[i..], url);
    assert m[..j] == Matches(s[..i], url);
    assert KeptString(s[i], url) && |NonEmptyStrings(Matches(s[..i], url))| == k;
  }

  /** A ranked list has no more strings than the matches have: every position has a kept entry of that rank. */
  lemma RankedStringsBound(s: seq<Extension>, url: string, r: seq<string>)
    requires RankedStrings(s, url, r)
    ensures |r| <= |NonEmptyStrings(Matches(s, url))|
  {
    if |r| > |NonEmptyStrings(Matches(s, url))| {
      var k := |NonEmptyStrings(Matches(s, url))|;
      assert StringRankedAt(s, url, r, k);
      var i :| 0 <= i < |s| && KeptString(s[i], url) &&
        |NonEmptyStrings(Matches(s[..i], url))| == k && r[k] == s[i].value.valueString;
      NonEmptyMatchesAt(s, url, i);
    }
  }

  /** Only the strings of the matches are ranked: no string is missing, extra or moved. */
  lemma RankedStringsUnique(s: seq<Extension>, url: string, r: seq<string>)
    requires RankedStrings(s, url, r)
    ensures r == NonEmptyStrings(Matches(s, url))
  {
    var q := NonEmptyStrings(Matches(s, url));
    StringsRanked(s, url);
    forall k | 0 <= k < |q|
      ensures k < |r| && r[k] == q[k]
    {
      assert StringRankedAt(s, url, q, k);
      var i :| 0 <= i < |s| && KeptString(s[i], url) &&
        |NonEmptyStrings(Matches(s[..i], url))| == k && q[k] == s[i].value.valueString;
      assert r[|NonEmptyStrings(Matches(s[..i], url))|] == s[i].value.valueString;
    }
    RankedStringsBound(s, url, r);
    if |q| > 0 {
      // instantiate the forall above at the last position of q
      assert q[|q| - 1] == q[|q| - 1] && |q| - 1 < |r|;
    }
  }

  /**
   * getExtensionStringValues: None exactly when no entry has the url; otherwise the
   * non-empty valueStrings of the matches, in order, which may be an empty sequence.
   */
  function GetExtensionStringValues(element: Element?, url: string): (r: Option<seq<string>>)
    reads element
    ensures r.None? <==> !HasExtension(element, url)
    ensures r.Some? ==> forall str :: str in r.value <==> str != "" && Extension(url, VString(str)) in ListOf(element)
    ensures r.Some? ==> RankedStrings(ListOf(element), url, r.value)
  {
    match GetExtensions(element, url)
    case None => None
    case Some(matches) =>
      var r := NonEmptyStrings(matches);
      NonEmptyStringsMembership(matches);
      assert forall str :: Extension(url, VString(str)) in ListOf(element) <==>
        Extension(url, VString(str)) in matches;
      assert forall str :: (exists i :: 0 <= i < |matches| && matches[i].value == VString(str)) <==>
        Extension(url, VString(str)) in matches;
      RankedUnique(ListOf(element), url, matches);
      StringsRanked(ListOf(element), url);
      Some(r)
  }

  /**
   * The strings keep the order of their extensions: the non-empty valueString of the
   * match at index i sits after the strings of the matches before i.
   */
  lemma StringValuesOrder(element: Element?, url: string, i: nat)
    requires i < |ListOf(element)| && ListOf(element)[i].url == url
    requires ListOf(element)[i].value.VString? && ListOf(element)[i].value.valueString != ""
    ensures GetExtensionStringValues(element, url).Some?
    ensures var before := |NonEmptyStrings(Matches(ListOf(element)[..i], url))|;
      before < |GetExtensionStringValues(element, url).value| &&
      GetExtensionStringValues(element, url).value[before] == ListOf(element)[i].value.valueString
  {
    NonEmptyMatchesAt(ListOf(element), url, i);
  }

  /** After setting a string extension, the string getter returns that string. */
  lemma StringValueAfterSet(element: Element, before: seq<Extension>, url: string, str: string)
    requires element.extension == Some(SetIn(before, Extension(url, VString(str))))
    ensures GetExtensionStringValue(element, url) == Some(str)
  {
    SetInFirst(before, Extension(url, VString(str)));
  }

  /** setExtensionBooleanValue: setExtension with a valueBoolean extension. */
  method SetExtensionBooleanValue(element: Element, url: string, value: bool)
    modifies element
    ensures element.extension == Some(SetIn(Entries(old(element.extension)), Extension(url, VBoolean(value))))
    ensures GetExtensionBooleanValue(element, url) == Some(value)
  {
    SetExtension(element, Extension(url, VBoolean(value)));
  }
}
