/**
 * Locating extensions on an element by url (getExtension, getExtensions, hasExtension,
 * hasExtensionAny): pure queries over the element's ordered extension list.
 */
module ExtensionLocator {
  import opened Wrappers
  import opened ExtensionModel

  /** The `filter` on `v.url === url` that every locator runs: the matches, in list order. */
  function Matches(s: seq<Extension>, url: string): (r: seq<Extension>)
    ensures |r| <= |s|
  {
    if s == [] then []
    else if s[0].url == url then [s[0]] + Matches(s[1..], url)
    else Matches(s[1..], url)
  }

  /** The complement of Matches: the entries whose url differs, in list order. */
  function Without(s: seq<Extension>, url: string): (r: seq<Extension>)
    ensures |r| <= |s|
  {
    if s == [] then []
    else if s[0].url != url then [s[0]] + Without(s[1..], url)
    else Without(s[1..], url)
  }

  /** Matches keeps exactly the entries with the url. */
  lemma {:induction false} MatchesMembership(s: seq<Extension>, url: string)
    ensures forall x :: x in Matches(s, url) <==> x in s && x.url == url
  {
    if s != [] {
      MatchesMembership(s[1..], url);
      assert forall x :: x in s <==> x == s[0] || x in s[1..];
    }
  }

  /** Without keeps exactly the entries with a different url. */
  lemma {:induction false} WithoutMembership(s: seq<Extension>, url: string)
    ensures forall x :: x in Without(s, url) <==> x in s && x.url != url
  {
    if s != [] {
      WithoutMembership(s[1..], url);
      assert forall x :: x in s <==> x == s[0] || x in s[1..];
    }
  }

  /** The lowest index holding `url`, if any: the reference definition of "the first match". */
  function FirstIndex(s: seq<Extension>, url: string): (r: Option<nat>)
    ensures r.None? <==> forall i :: 0 <= i < |s| ==> s[i].url != url
    ensures r.Some? ==> r.value < |s| && s[r.value].url == url
    ensures r.Some? ==> forall j :: 0 <= j < r.value ==> s[j].url != url
  {
    if s == [] then None
    else if s[0].url == url then Some(0)
    else match FirstIndex(s[1..], url)
      case None => None
      case Some(i) => Some(i + 1)
  }

  /** FirstIndex is determined by its contract: a match with no match before it is the first. */
  lemma FirstIndexIs(s: seq<Extension>, url: string, i: nat)
    requires i < |s| && s[i].url == url
    requires forall j :: 0 <= j < i ==> s[j].url != url
    ensures FirstIndex(s, url) == Some(i)
  {
  }

  lemma {:induction false} MatchesConcat(a: seq<Extension>, b: seq<Extension>, url: string)
    ensures Matches(a + b, url) == Matches(a, url) + Matches(b, url)
  {
    if a != [] {
      assert (a + b)[1..] == a[1..] + b;
      MatchesConcat(a[1..], b, url);
    } else {
      assert a + b == b;
    }
  }

  lemma {:induction false} WithoutConcat(a: seq<Extension>, b: seq<Extension>, url: string)
    ensures Without(a + b, url) == Without(a, url) + Without(b, url)
  {
    if a != [] {
      assert (a + b)[1..] == a[1..] + b;
      WithoutConcat(a[1..], b, url);
    } else {
      assert a + b == b;
    }
  }

  /** The filter's first element is the entry at FirstIndex; none exists exactly when FirstIndex is None. */
  lemma {:induction false} MatchesFromFirst(s: seq<Extension>, url: string)
    ensures FirstIndex(s, url).None? ==> Matches(s, url) == []
    ensures FirstIndex(s, url).Some? ==>
      var i := FirstIndex(s, url).value;
      Matches(s, url) == [s[i]] + Matches(s[i + 1..], url)
  {
    if s != [] && s[0].url != url {
      MatchesFromFirst(s[1..], url);
      if FirstIndex(s[1..], url).Some? {
        var j := FirstIndex(s[1..], url).value;
        assert s[1..][j + 1..] == s[j + 2..];
      }
    }
  }

  /**
   * Order preservation: the matching entry at index i sits in the filtered list at the
   * position given by the number of matches before i.
   */
  lemma MatchesAt(s: seq<Extension>, url: string, i: nat)
    requires i < |s| && s[i].url == url
    ensures |Matches(s[..i], url)| < |Matches(s, url)|
    ensures Matches(s, url)[|Matches(s[..i], url)|] == s[i]
  {
    assert s == s[..i] + s[i..];
    MatchesConcat(s[..i], s[i..], url);
    assert s[i..][1..] == s[i + 1..];
  }

  /** Every position of the filtered list comes from an entry with the url, whose rank is that position. */
  lemma {:induction false} MatchesOrigin(s: seq<Extension>, url: string)
    ensures forall k :: 0 <= k < |Matches(s, url)| ==> RankedAt(s, url, Matches(s, url), k)
  {
    if s != [] {
      var m, m' := Matches(s, url), Matches(s[1..], url);
      MatchesOrigin(s[1..], url);
      forall k | 0 <= k < |m|
        ensures RankedAt(s, url, m, k)
      {
        if s[0].url == url && k == 0 {
          assert s[..0] == [];
          assert m[0] == s[0];
        } else {
          var k' := if s[0].url == url then k - 1 else k;
          assert 0 <= k' < |m'| && m[k] == m'[k'];
          assert RankedAt(s[1..], url, m', k');
          var i' :| 0 <= i' < |s[1..]| && s[1..][i'].url == url && |Matches(s[1..][..i'], url)| == k' && m'[k'] == s[1..][i'];
          MatchesPrefixStep(s, url, i');
          assert s[i' + 1] == s[1..][i'];
          assert s[i' + 1].url == url && |Matches(s[..i' + 1], url)| == k && m[k] == s[i' + 1];
        }
      }
    }
  }

  /** The rank of index `i + 1` is the rank of `i` in the tail, plus one when the head matches. */
  lemma MatchesPrefixStep(s: seq<Extension>, url: string, i: nat)
    requires i < |s|
    ensures |Matches(s[..i + 1], url)| == (if s[0].url == url then 1 else 0) + |Matches(s[1..][..i], url)|
  {
    assert s[..i + 1] == [s[0]] + s[1..][..i];
    MatchesConcat([s[0]], s[1..][..i], url);
    assert [s[0]][1..] == [];
  }

  /**
   * `r` lists the entries of `s` with the url, in order and nothing else: each such entry sits
   * at its rank (the number of such entries before it), and each position of `r` holds the
   * entry of that rank.
   */
  predicate Ranked(s: seq<Extension>, url: string, r: seq<Extension>)
  {
    (forall i :: 0 <= i < |s| && s[i].url == url ==>
      |Matches(s[..i], url)| < |r| && r[|Matches(s[..i], url)|] == s[i]) &&
    (forall k :: 0 <= k < |r| ==> RankedAt(s, url, r, k))
  }

  /** Position `k` of `r` holds an entry of `s` with the url whose rank is `k`. */
  predicate RankedAt(s: seq<Extension>, url: string, r: seq<Extension>, k: nat)
  {
    k < |r| && exists i :: 0 <= i < |s| && s[i].url == url && |Matches(s[..i], url)| == k && r[k] == s[i]
  }

  /** The filter is ranked. */
  lemma MatchesRanked(s: seq<Extension>, url: string)
    ensures Ranked(s, url, Matches(s, url))
  {
    forall i | 0 <= i < |s| && s[i].url == url
      ensures |Matches(s[..i], url)| < |Matches(s, url)| && Matches(s, url)[|Matches(s[..i], url)|] == s[i]
    {
      MatchesAt(s, url, i);
    }
    MatchesOrigin(s, url);
  }

  /** Only the filter is ranked: the ranking leaves no room for missing, extra or moved entries. */
  lemma RankedUnique(s: seq<Extension>, url: string, r: seq<Extension>)
    requires Ranked(s, url, r)
    ensures r == Matches(s, url)
  {
    var m := Matches(s, url);
    MatchesOrigin(s, url);
    forall k | 0 <= k < |m|
      ensures k < |r| && r[k] == m[k]
    {
      assert RankedAt(s, url, m, k);
      var i :| 0 <= i < |s| && s[i].url == url && |Matches(s[..i], url)| == k && m[k] == s[i];
      assert r[|Matches(s[..i], url)|] == s[i];
    }
    if |r| > |m| {
      assert RankedAt(s, url, r, |m|);
      var i :| 0 <= i < |s| && s[i].url == url && |Matches(s[..i], url)| == |m| && r[|m|] == s[i];
      MatchesAt(s, url, i);
    } else if |m| > 0 {
      // instantiate the forall above at the last position of m
      assert m[|m| - 1] == m[|m| - 1] && |m| - 1 < |r|;
    }
  }

  /** Without grows by the appended entry exactly when that entry has a different url. */
  lemma WithoutSnoc(s: seq<Extension>, x: Extension, url: string)
    ensures Without(s + [x], url) == Without(s, url) + (if x.url != url then [x] else [])
  {
    WithoutConcat(s, [x], url);
    assert [x][1..] == [];
  }

  /** Every entry is either a match or kept by Without. */
  lemma {:induction false} MatchesWithoutLength(s: seq<Extension>, url: string)
    ensures |Matches(s, url)| + |Without(s, url)| == |s|
  {
    if s != [] {
      MatchesWithoutLength(s[1..], url);
    }
  }

  /** After removing a url, nothing matches it. */
  lemma {:induction false} MatchesOfWithout(s: seq<Extension>, url: string)
    ensures Matches(Without(s, url), url) == []
  {
    if s != [] {
      MatchesOfWithout(s[1..], url);
    }
  }

  /** Removing a url empties the list exactly when every entry has that url. */
  lemma {:induction false} WithoutEmpty(s: seq<Extension>, url: string)
    ensures Without(s, url) == [] <==> forall i :: 0 <= i < |s| ==> s[i].url == url
  {
    if s != [] {
      WithoutEmpty(s[1..], url);
      assert forall i :: 1 <= i < |s| ==> s[i] == s[1..][i - 1];
    }
  }

  /** Removing a url leaves the matches of every other url as they were. */
  lemma {:induction false} WithoutKeepsOthers(s: seq<Extension>, url: string, other: string)
    requires other != url
    ensures Matches(Without(s, url), other) == Matches(s, other)
  {
    if s != [] {
      WithoutKeepsOthers(s[1..], url, other);
    }
  }

  /** Removing a url twice is removing it once. */
  lemma {:induction false} WithoutIdempotent(s: seq<Extension>, url: string)
    ensures Without(Without(s, url), url) == Without(s, url)
  {
    if s != [] {
      WithoutIdempotent(s[1..], url);
    }
  }

  /** No entry before the first match has the url, so removing the url leaves that prefix intact. */
  lemma {:induction false} WithoutNoMatch(s: seq<Extension>, url: string)
    requires forall i :: 0 <= i < |s| ==> s[i].url != url
    ensures Without(s, url) == s
    ensures Matches(s, url) == []
  {
    if s != [] {
      WithoutNoMatch(s[1..], url);
    }
  }

  /** getExtension: the first extension on the element with the url, or None. */
  function GetExtension(element: Element?, url: string): (r: Option<Extension>)
    reads element
    ensures r.None? <==> FirstIndex(ListOf(element), url).None?
    ensures r.Some? ==> r.value == ListOf(element)[FirstIndex(ListOf(element), url).value]
  {
    if element == null || element.extension.None? then None
    else
      var extValues := Matches(element.extension.value, url);
      MatchesFromFirst(element.extension.value, url);
      if |extValues| > 0 then Some(extValues[0]) else None
  }

  /** getExtensions: every extension on the element with the url, in order; None, never [], when there is none. */
  function GetExtensions(element: Element?, url: string): (r: Option<seq<Extension>>)
    reads element
    ensures r.None? <==> FirstIndex(ListOf(element), url).None?
    ensures r.Some? ==> r.value != [] && r.value[0] == GetExtension(element, url).value
    ensures r.Some? ==> forall x :: x in r.value <==> x in ListOf(element) && x.url == url
    ensures r.Some? ==> Ranked(ListOf(element), url, r.value)
  {
    if element == null || element.extension.None? then None
    else
      var extValues := Matches(element.extension.value, url);
      MatchesFromFirst(element.extension.value, url);
      MatchesMembership(element.extension.value, url);
      MatchesRanked(element.extension.value, url);
      if |extValues| > 0 then Some(extValues) else None
  }

  /** The matches GetExtensions returns keep the order they have on the element. */
  lemma GetExtensionsOrder(element: Element?, url: string, i: nat)
    requires i < |ListOf(element)| && ListOf(element)[i].url == url
    ensures GetExtensions(element, url).Some?
    ensures var before := |Matches(ListOf(element)[..i], url)|;
      before < |GetExtensions(element, url).value| &&
      GetExtensions(element, url).value[before] == ListOf(element)[i]
  {
    MatchesAt(ListOf(element), url, i);
  }

  /** hasExtension: some extension on the element has the url. */
  function HasExtension(element: Element?, url: string): (r: bool)
    reads element
    ensures r <==> GetExtension(element, url).Some?
    ensures r <==> exists i :: 0 <= i < |ListOf(element)| && ListOf(element)[i].url == url
  {
    if element == null || element.extension.None? then false
    else
      var extValues := Matches(element.extension.value, url);
      MatchesFromFirst(element.extension.value, url);
      |extValues| > 0
  }

  /** The `for (const url of urls)` search inside hasExtensionAny's filter. */
  function UrlListed(url: string, urls: seq<string>): (r: bool)
    ensures r <==> url in urls
  {
    if urls == [] then false
    else if url == urls[0] then true
    else UrlListed(url, urls[1..])
  }

  /** The filter of hasExtensionAny: the entries whose url is one of `urls`. */
  function MatchesAny(s: seq<Extension>, urls: seq<string>): (r: seq<Extension>)
    ensures forall x :: x in r <==> x in s && x.url in urls
  {
    if s == [] then []
    else if UrlListed(s[0].url, urls) then [s[0]] + MatchesAny(s[1..], urls)
    else MatchesAny(s[1..], urls)
  }

  /** hasExtensionAny: some extension on the element has a url that is a member of `urls`. */
  function HasExtensionAny(element: Element?, urls: seq<string>): (r: bool)
    reads element
    ensures r <==> exists i :: 0 <= i < |ListOf(element)| && ListOf(element)[i].url in urls
  {
    if element == null || element.extension.None? then false
    else
      var extValues := MatchesAny(element.extension.value, urls);
      MatchesAnyNonEmpty(ListOf(element), urls);
      |extValues| > 0
  }

  lemma MatchesAnyNonEmpty(s: seq<Extension>, urls: seq<string>)
    ensures |MatchesAny(s, urls)| > 0 <==> exists i :: 0 <= i < |s| && s[i].url in urls
  {
    var r := MatchesAny(s, urls);
    if exists i :: 0 <= i < |s| && s[i].url in urls {
      var i :| 0 <= i < |s| && s[i].url in urls;
      assert s[i] in r;
    } else if |r| > 0 {
      assert r[0] in r;
    }
  }

  /** hasExtensionAny is set membership: true exactly when hasExtension holds for some listed url. */
  lemma HasExtensionAnyIsSomeHas(element: Element?, urls: seq<string>)
    ensures HasExtensionAny(element, urls) <==> exists k :: 0 <= k < |urls| && HasExtension(element, urls[k])
  {
    var s := ListOf(element);
    if HasExtensionAny(element, urls) {
      var i :| 0 <= i < |s| && s[i].url in urls;
      var k :| 0 <= k < |urls| && urls[k] == s[i].url;
      assert HasExtension(element, urls[k]);
    }
  }

  /** With a single url, hasExtensionAny is hasExtension. */
  lemma HasExtensionAnySingle(element: Element?, url: string)
    ensures HasExtensionAny(element, [url]) == HasExtension(element, url)
  {
    HasExtensionAnyIsSomeHas(element, [url]);
  }
}
