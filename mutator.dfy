/**
 * Changing an element's extensions (setExtension, addExtension, clearExtension). Each
 * method builds the new list in a local variable (setExtension and clearExtension with a
 * loop that splices out the matches) and assigns the element's `extension` field once; the
 * functions SetIn and ClearIn state declaratively what the field holds afterwards, and the
 * lemmas state what the source promises about those results.
 */
module ExtensionMutator {
  import opened Wrappers
  import opened ExtensionModel
  import opened ExtensionLocator

  /**
   * The list setExtension leaves behind: with a prior match, the entries before the first
   * match, then `v`, then the later entries with every other match removed; with none,
   * the list with `v` appended.
   */
  function SetIn(s: seq<Extension>, v: Extension): (r: seq<Extension>)
    ensures 0 < |r| <= |s| + 1
  {
    match FirstIndex(s, v.url)
    case None => s + [v]
    case Some(i) => s[..i] + [v] + Without(s[i + 1..], v.url)
  }

  /**
   * Setting brings in nothing but `v`, and drops only entries with `v`'s url: `v` is in the
   * result, every other entry of the result was in the list, and every entry with another
   * url survives.
   */
  lemma SetInMembership(s: seq<Extension>, v: Extension)
    ensures v in SetIn(s, v)
    ensures forall x :: x in SetIn(s, v) ==> x == v || x in s
    ensures forall x :: x in s && x.url != v.url ==> x in SetIn(s, v)
  {
    var r := SetIn(s, v);
    match FirstIndex(s, v.url)
    case None =>
    case Some(i) =>
      var w := Without(s[i + 1..], v.url);
      WithoutMembership(s[i + 1..], v.url);
      assert r == s[..i] + [v] + w;
      assert s == s[..i] + [s[i]] + s[i + 1..];
  }

  /**
   * The field clearExtension leaves behind: unchanged when missing, otherwise the entries
   * without the url, and the field removed when none remain.
   */
  function ClearIn(field: Option<seq<Extension>>, url: string): (r: Option<seq<Extension>>)
    ensures field.None? ==> r.None?
    ensures r.Some? ==> r.value != [] && forall x :: x in r.value ==> x.url != url
  {
    if field.None? then None
    else
      var rest := Without(field.value, url);
      WithoutMembership(field.value, url);
      if rest == [] then None else Some(rest)
  }

  /** With a prior match, `v` replaces the first one in place and the later ones disappear. */
  lemma SetInAtFirstMatch(s: seq<Extension>, v: Extension)
    requires FirstIndex(s, v.url).Some?
    ensures var i, r := FirstIndex(s, v.url).value, SetIn(s, v);
      |r| == |s| + 1 - |Matches(s, v.url)| && i < |r| && r[..i] == s[..i] && r[i] == v
  {
    var u := v.url;
    var i := FirstIndex(s, u).value;
    var rest := s[i + 1..];
    var tail := [v] + Without(rest, u);
    var r := SetIn(s, v);
    assert r == s[..i] + tail;
    assert |Matches(s, u)| == 1 + |Matches(rest, u)| by {
      MatchesFromFirst(s, u);
    }
    assert |Without(rest, u)| == |s| - i - 1 - |Matches(rest, u)| by {
      MatchesWithoutLength(rest, u);
    }
    assert r[..i] == s[..i] && r[i] == tail[0];
  }

  /** Without a prior match, `v` is appended and the list grows by exactly one. */
  lemma SetInAppends(s: seq<Extension>, v: Extension)
    requires forall i :: 0 <= i < |s| ==> s[i].url != v.url
    ensures SetIn(s, v) == s + [v] && |SetIn(s, v)| == |s| + 1
  {
  }

  /** Afterwards exactly one entry carries `v.url`, and it is `v`. */
  lemma SetInLeavesOne(s: seq<Extension>, v: Extension)
    ensures Matches(SetIn(s, v), v.url) == [v]
  {
    var u := v.url;
    match FirstIndex(s, u)
    case None =>
      MatchesConcat(s, [v], u);
      WithoutNoMatch(s, u);
    case Some(i) =>
      var w := Without(s[i + 1..], u);
      MatchesConcat(s[..i] + [v], w, u);
      MatchesConcat(s[..i], [v], u);
      WithoutNoMatch(s[..i], u);
      MatchesOfWithout(s[i + 1..], u);
  }

  /** Entries with any other url keep their values and their relative order. */
  lemma SetInKeepsOthers(s: seq<Extension>, v: Extension, other: string)
    requires other != v.url
    ensures Matches(SetIn(s, v), other) == Matches(s, other)
  {
    var u := v.url;
    match FirstIndex(s, u)
    case None =>
      MatchesConcat(s, [v], other);
    case Some(i) =>
      assert s == s[..i] + [s[i]] + s[i + 1..];
      MatchesConcat(s[..i] + [s[i]], s[i + 1..], other);
      MatchesConcat(s[..i], [s[i]], other);
      MatchesConcat(s[..i] + [v], Without(s[i + 1..], u), other);
      MatchesConcat(s[..i], [v], other);
      WithoutKeepsOthers(s[i + 1..], u, other);
  }

  /** Taken together: removing `v.url` from the result gives the old list without `v.url`. */
  lemma SetInWithout(s: seq<Extension>, v: Extension)
    ensures Without(SetIn(s, v), v.url) == Without(s, v.url)
  {
    var u := v.url;
    match FirstIndex(s, u)
    case None =>
      WithoutConcat(s, [v], u);
    case Some(i) =>
      assert s == s[..i] + [s[i]] + s[i + 1..];
      WithoutConcat(s[..i] + [s[i]], s[i + 1..], u);
      WithoutConcat(s[..i], [s[i]], u);
      WithoutConcat(s[..i] + [v], Without(s[i + 1..], u), u);
      WithoutConcat(s[..i], [v], u);
      WithoutIdempotent(s[i + 1..], u);
  }

  /** After a set, the first entry with the url is the value that was set. */
  lemma SetInFirst(s: seq<Extension>, v: Extension)
    ensures FirstIndex(SetIn(s, v), v.url).Some?
    ensures SetIn(s, v)[FirstIndex(SetIn(s, v), v.url).value] == v
  {
    var r := SetIn(s, v);
    SetInLeavesOne(s, v);
    MatchesFromFirst(r, v.url);
    var i := FirstIndex(r, v.url).value;
    assert Matches(r, v.url)[0] == r[i];
  }

  /**
   * Setting twice with the same url is setting once with the second value: one entry,
   * holding the second value, at the position the url first occupied.
   */
  lemma SetInTwice(s: seq<Extension>, v1: Extension, v2: Extension)
    requires v1.url == v2.url
    ensures SetIn(SetIn(s, v1), v2) == SetIn(s, v2)
  {
    if FirstIndex(s, v1.url).None? {
      SetInTwiceAppended(s, v1, v2);
    } else {
      SetInTwiceReplaced(s, v1, v2);
    }
  }

  /** SetInTwice when the url was absent: the second set replaces the appended entry. */
  lemma SetInTwiceAppended(s: seq<Extension>, v1: Extension, v2: Extension)
    requires v1.url == v2.url && FirstIndex(s, v1.url).None?
    ensures SetIn(SetIn(s, v1), v2) == s + [v2]
  {
    var t := SetIn(s, v1);
    assert t == s + [v1];
    FirstIndexIs(t, v1.url, |s|);
    assert t[..|s|] == s && t[|s| + 1..] == [];
  }

  /** SetInTwice when the url was present: the second set replaces the first one's value. */
  lemma SetInTwiceReplaced(s: seq<Extension>, v1: Extension, v2: Extension)
    requires v1.url == v2.url && FirstIndex(s, v1.url).Some?
    ensures var i := FirstIndex(s, v1.url).value;
      SetIn(SetIn(s, v1), v2) == s[..i] + [v2] + Without(s[i + 1..], v1.url)
  {
    var i := FirstIndex(s, v1.url).value;
    SetInShape(s, v1);
    WithoutIdempotent(s[i + 1..], v1.url);
  }

  /**
   * After a set over a prior match, the url's first index is unchanged, the entries before
   * it are the old ones, and the entries after it are the old ones without the url.
   */
  lemma SetInShape(s: seq<Extension>, v: Extension)
    requires FirstIndex(s, v.url).Some?
    ensures var i, t := FirstIndex(s, v.url).value, SetIn(s, v);
      FirstIndex(t, v.url) == Some(i) && t[..i] == s[..i] && t[i + 1..] == Without(s[i + 1..], v.url)
  {
    var u := v.url;
    var i := FirstIndex(s, u).value;
    var t := SetIn(s, v);
    var w := Without(s[i + 1..], u);
    var p := s[..i] + [v];
    assert t == p + w;
    assert t[..i] == s[..i] && t[i] == v && t[i + 1..] == w by {
      SplitConcat(p, w);
      SplitConcat(s[..i], [v]);
      assert t[..i] == p[..i] && t[i] == p[i];
    }
    assert forall j :: 0 <= j < i ==> t[j] == s[j] by {
      assert forall j :: 0 <= j < i ==> t[j] == t[..i][j];
    }
    FirstIndexIs(t, u, i);
  }

  /** Cutting a concatenation at the length of its left part gives the two parts back. */
  lemma SplitConcat(p: seq<Extension>, q: seq<Extension>)
    ensures (p + q)[..|p|] == p && (p + q)[|p|..] == q
  {
  }

  /** Setting the same extension twice gives the same list as setting it once. */
  lemma SetInIdempotent(s: seq<Extension>, v: Extension)
    ensures SetIn(SetIn(s, v), v) == SetIn(s, v)
  {
    SetInTwice(s, v, v);
  }

  /** addExtension keeps duplicates: the new entry becomes the last match of its url, other urls are unaffected. */
  lemma AddKeepsDuplicates(s: seq<Extension>, v: Extension, url: string)
    ensures Matches(s + [v], url) == Matches(s, url) + (if v.url == url then [v] else [])
  {
    MatchesConcat(s, [v], url);
  }

  /** After a clear, the remaining entries with other urls are the old ones, in the old order. */
  lemma ClearInKeepsOthers(field: Option<seq<Extension>>, url: string, other: string)
    requires other != url
    ensures Matches(Entries(ClearIn(field, url)), other) == Matches(Entries(field), other)
  {
    if field.Some? {
      WithoutKeepsOthers(field.value, url, other);
    }
  }

  /** A clear drops exactly the matching entries. */
  lemma ClearInLength(field: Option<seq<Extension>>, url: string)
    ensures |Entries(ClearIn(field, url))| == |Entries(field)| - |Matches(Entries(field), url)|
  {
    if field.Some? {
      MatchesWithoutLength(field.value, url);
    }
  }

  /**
   * When the list was there, the field is removed exactly when every entry had the url,
   * which includes a list that was already empty.
   */
  lemma ClearInRemovesField(field: Option<seq<Extension>>, url: string)
    requires field.Some?
    ensures ClearIn(field, url).None? <==> forall i :: 0 <= i < |field.value| ==> field.value[i].url == url
  {
    WithoutEmpty(field.value, url);
  }

  /** Clearing twice is clearing once. */
  lemma ClearInIdempotent(field: Option<seq<Extension>>, url: string)
    ensures ClearIn(ClearIn(field, url), url) == ClearIn(field, url)
  {
    if field.Some? {
      WithoutIdempotent(field.value, url);
    }
  }

  /**
   * Clearing a url that was set on an element without it undoes the set, up to the one
   * representation of "no extensions": an empty list comes back as a missing field.
   */
  lemma ClearUndoesSet(field: Option<seq<Extension>>, v: Extension)
    requires forall i :: 0 <= i < |Entries(field)| ==> Entries(field)[i].url != v.url
    ensures ClearIn(Some(SetIn(Entries(field), v)), v.url) == ClearIn(field, v.url)
    ensures ClearIn(field, v.url) == if Entries(field) == [] then None else field
  {
    var s := Entries(field);
    assert FirstIndex(s, v.url).None?;
    assert SetIn(s, v) == s + [v];
    assert [v][1..] == [];
    assert Without([v], v.url) == [];
    WithoutConcat(s, [v], v.url);
    WithoutNoMatch(s, v.url);
    assert Without(s + [v], v.url) == s;
    if field.Some? {
      assert ClearIn(field, v.url) == if s == [] then None else Some(s);
    }
  }

  /**
   * One step of SpliceOut's scan: `r` is a finished part followed by the unscanned rest of
   * `list`, and the entry at `k` is either spliced out or added to the finished part.
   */
  lemma ScanStep(list: seq<Extension>, from: nat, url: string, k: nat, done: seq<Extension>, r: seq<Extension>)
    requires from <= k < |list|
    requires done == list[..from] + Without(list[from..k], url)
    requires r == done + list[k..]
    ensures |done| < |r| && r[|done|] == list[k]
    ensures list[k].url == url ==>
      done == list[..from] + Without(list[from..k + 1], url) &&
      r[..|done|] + r[|done| + 1..] == done + list[k + 1..]
    ensures list[k].url != url ==>
      done + [list[k]] == list[..from] + Without(list[from..k + 1], url) &&
      r == (done + [list[k]]) + list[k + 1..]
  {
    assert list[k..] == [list[k]] + list[k + 1..];
    assert list[from..k + 1] == list[from..k] + [list[k]];
    WithoutSnoc(list[from..k], list[k], url);
  }

  /**
   * The splice loops of setExtension and clearExtension: scan `list` from index `from`
   * and splice out every entry with the url, leaving the entries before `from` alone.
   */
  method SpliceOut(list: seq<Extension>, from: nat, url: string) returns (r: seq<Extension>)
    requires from <= |list|
    ensures r == list[..from] + Without(list[from..], url)
  {
    r := list;
    var j := from;
    ghost var k := from;
    ghost var done := list[..from];
    assert list[from..k] == [] && r == done + list[k..];
    while j < |r|
      invariant from <= k <= |list|
      invariant done == list[..from] + Without(list[from..k], url)
      invariant r == done + list[k..]
      invariant j == |done|
      decreases |r| - j
    {
      ScanStep(list, from, url, k, done, r);
      if r[j].url == url {
        r := r[..j] + r[j + 1..];
      } else {
        done := done + [list[k]];
        j := j + 1;
      }
      k := k + 1;
    }
    assert list[from..k] == list[from..] && list[k..] == [];
  }

  /** setExtension: collapse every entry with `value.url` onto the first one, or append. */
  method SetExtension(element: Element, value: Extension)
    modifies element
    ensures element.extension == Some(SetIn(Entries(old(element.extension)), value))
    ensures GetExtension(element, value.url) == Some(value)
  {
    var list := Entries(element.extension);
    ghost var s := list;
    var first := FirstIndex(list, value.url);
    if first.Some? {
      var i := first.value;
      list := list[i := value];
      assert list[..i + 1] == s[..i] + [value] && list[i + 1..] == s[i + 1..];
      // remove down any other values
      list := SpliceOut(list, i + 1, value.url);
    } else {
      list := list + [value];
    }
    element.extension := Some(list);
    SetInFirst(s, value);
  }

  /** addExtension: append, creating the list if it is missing. */
  method AddExtension(element: Element, value: Extension)
    modifies element
    ensures element.extension == Some(Entries(old(element.extension)) + [value])
  {
    var list := Entries(element.extension);
    element.extension := Some(list + [value]);
  }

  /** clearExtension: drop every entry with the url; remove the field when nothing remains. */
  method ClearExtension(element: Element, url: string)
    modifies element
    ensures element.extension == ClearIn(old(element.extension), url)
    ensures !HasExtension(element, url)
  {
    if element.extension.None? {
      return;
    }
    var list := element.extension.value;
    ghost var s := list;
    assert list[..0] == [] && list[0..] == list;
    list := SpliceOut(list, 0, url);
    assert list == Without(s, url);
    if |list| == 0 {
      element.extension := None;
    } else {
      element.extension := Some(list);
    }
  }
}
