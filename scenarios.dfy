/**
 * Client code replaying the scenarios of the repository's tests (src/tests/extensions.test.ts)
 * against the contracts of the mutator methods and the definitions of the query functions.
 * The JSON text the tests compare becomes the extension field itself.
 */
module Scenarios {
  import opened Wrappers
  import opened ExtensionModel
  import opened ExtensionLocator
  import opened ExtensionMutator
  import opened TypedAccessors

  /** Set, overwrite and clear one string extension on an element that had none. */
  method StringGetSetClear()
  {
    var e := new Element(None);
    var test := Extension("exturl", VString("test"));
    SetExtension(e, test);
    SetInAppends([], test);
    assert SetIn([], test) == [test];
    assert e.extension == Some([test]);
    assert GetExtensionStringValue(e, "exturl") == Some("test");

    var test2 := Extension("exturl", VString("test2"));
    SetExtension(e, test2);
    SetInTwice([], test, test2);
    SetInAppends([], test2);
    assert SetIn([], test2) == [test2];
    assert e.extension == Some([test2]);
    assert GetExtensionStringValue(e, "exturl") == Some("test2");

    ClearExtension(e, "exturl");
    assert e.extension == None;
    assert GetExtensionStringValue(e, "exturl") == None;
  }

  /** The same with a boolean value, set through setExtensionBooleanValue. */
  method BooleanGetSet()
  {
    var e := new Element(None);
    var yes, no := Extension("exturl", VBoolean(true)), Extension("exturl", VBoolean(false));
    SetExtensionBooleanValue(e, "exturl", true);
    SetInAppends([], yes);
    assert SetIn([], yes) == [yes];
    assert e.extension == Some([yes]);
    assert GetExtensionBooleanValue(e, "exturl") == Some(true);

    SetExtensionBooleanValue(e, "exturl", false);
    SetInTwice([], yes, no);
    SetInAppends([], no);
    assert SetIn([], no) == [no];
    assert e.extension == Some([Extension("exturl", VBoolean(false))]);
    assert GetExtensionBooleanValue(e, "exturl") == Some(false);

    ClearExtension(e, "exturl");
    assert e.extension == None;
    assert GetExtensionBooleanValue(e, "exturl") == None;
  }

  /** A set and an add on one url give two entries, read back in insertion order. */
  method BatchSetAdd()
  {
    var e := new Element(None);
    var test := Extension("exturl", VString("test"));
    var test2 := Extension("exturl", VString("test2"));
    SetExtension(e, test);
    SetInAppends([], test);
    assert SetIn([], test) == [test];
    AddExtension(e, test2);
    assert e.extension == Some([test] + [test2]);
    assert GetExtensionStringValue(e, "exturl") == Some("test");
    BatchEntries(test, test2);
    assert HasExtension(e, "exturl") by {
      assert ListOf(e)[0].url == "exturl";
    }
    var all := GetExtensions(e, "exturl");
    RankedUnique(ListOf(e), "exturl", all.value);
    assert all == Some([test] + [test2]);
    var strings := GetExtensionStringValues(e, "exturl");
    RankedStringsUnique(ListOf(e), "exturl", strings.value);
    assert strings == Some(["test", "test2"]);
  }

  /** The two entries of the batch scenario: both match, and both strings are kept. */
  lemma BatchEntries(test: Extension, test2: Extension)
    requires test == Extension("exturl", VString("test")) && test2 == Extension("exturl", VString("test2"))
    ensures Matches([test] + [test2], "exturl") == [test] + [test2]
    ensures NonEmptyStrings([test] + [test2]) == ["test", "test2"]
  {
    AddKeepsDuplicates([test], test2, "exturl");
    assert Matches([test], "exturl") == [test];
    NonEmptyStringsConcat([test], [test2]);
    assert NonEmptyStrings([test]) == ["test"] && NonEmptyStrings([test2]) == ["test2"];
  }

  /** A later set collapses the two entries onto the first one; a clear removes the field. */
  method BatchCollapseClear()
  {
    var test := Extension("exturl", VString("test"));
    var test2 := Extension("exturl", VString("test2"));
    var e := new Element(Some([test, test2]));
    var test3 := Extension("exturl", VString("test3"));
    SetExtension(e, test3);
    assert FirstIndex([test, test2], "exturl") == Some(0);
    assert [test, test2][..0] == [] && [test, test2][1..] == [test2];
    assert Without([test2], "exturl") == [];
    assert SetIn([test, test2], test3) == [] + [test3] + [];
    assert [] + [test3] + [] == [test3];
    assert e.extension == Some([test3]);
    assert GetExtensionStringValue(e, "exturl") == Some("test3");

    ClearExtension(e, "exturl");
    assert e.extension == None;
    assert GetExtensionStringValue(e, "exturl") == None;
  }

  /** A shadow element created with an empty list receives the extension in that list. */
  method PrimitivePropertyExtension()
  {
    var birthDate := new Element(Some([]));
    var time := Extension("http://example.org/time", VString("test2"));
    SetExtension(birthDate, time);
    SetInAppends([], time);
    assert SetIn([], time) == [time];
    assert birthDate.extension == Some([time]);
  }
}
