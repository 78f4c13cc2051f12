/** The concrete expectations of the version unit test and of the class's
    own doc examples, derived from the general model. */
module VersionExamples {
  import opened Wrappers
  import opened Text
  import opened Decimal
  import opened Versions

  /** `Version("1.0.1.0")` and `Version("1.0.0.1")` parse to their four parts. */
  lemma ParseFourPartExamples()
    ensures Parse("1.0.1.0") == Success(Version(1, 0, 1, 0))
    ensures Parse("1.0.0.1") == Success(Version(1, 0, 0, 1))
  {
    assert "1.0.1.0" == Join(["1", "0", "1", "0"], '.');
    ParseJoined(["1", "0", "1", "0"], Version(1, 0, 1, 0));
    assert "1.0.0.1" == Join(["1", "0", "0", "1"], '.');
    ParseJoined(["1", "0", "0", "1"], Version(1, 0, 0, 1));
  }

  /** `1.0.1.0 > 1.0.0.1` although its build part is smaller, and the other
      operators agree; a version equals another parsed from the same string. */
  lemma BuildPartComparedLast()
    ensures Greater(Version(1, 0, 1, 0), Version(1, 0, 0, 1))
    ensures GreaterEq(Version(1, 0, 1, 0), Version(1, 0, 0, 1))
    ensures Less(Version(1, 0, 0, 1), Version(1, 0, 1, 0))
    ensures LessEq(Version(1, 0, 0, 1), Version(1, 0, 1, 0))
    ensures !Eq(Version(1, 0, 1, 0), Version(1, 0, 0, 1))
    ensures Eq(Version(1, 0, 1, 0), Version(1, 0, 1, 0))
  {
  }

  /** `Version("1.2.3")` is `1.2.3.0`. */
  lemma ParseThreePartExample()
    ensures Parse("1.2.3") == Success(Version(1, 2, 3, 0))
  {
    assert "1.2.3" == Join(["1", "2", "3"], '.');
    ParseJoined(["1", "2", "3"], Version(1, 2, 3, 0));
  }

  /** `Version("1.2.3") == Version("1.2.3.0")`. */
  lemma ThreePartEqualsPadded()
    ensures Parse("1.2.3") == Parse("1.2.3.0")
  {
    var v := Version(1, 2, 3, 0);
    ParseThreePartExample();
    assert ToString(v) == "1.2.3.0";
    ParseToString(v);
  }

  /** `str(Version("1.0.1.0")) == "1.0.1.0"`: a four-part version prints unchanged. */
  lemma PrintsFourPartsUnchanged()
    ensures Parse("1.0.1.0").Success? && ToString(Parse("1.0.1.0").value) == "1.0.1.0"
  {
    ParseFourPartExamples();
    assert [IntToString(1), IntToString(0), IntToString(1), IntToString(0)] == ["1", "0", "1", "0"];
    assert Join(["1", "0", "1", "0"], '.') == "1.0.1.0";
  }

  /** `str(Version("1.2.3")) == "1.2.3.0"`: a three-part version prints with its build 0. */
  lemma PrintsThreePartsPadded()
    ensures Parse("1.2.3").Success? && ToString(Parse("1.2.3").value) == "1.2.3.0"
  {
    ParseThreePartExample();
    assert [IntToString(1), IntToString(2), IntToString(3), IntToString(0)] == ["1", "2", "3", "0"];
    assert Join(["1", "2", "3", "0"], '.') == "1.2.3.0";
  }

  /** The doc example `Version("1.2.3") < Version("1.2.4")`. */
  lemma PatchOrderExample()
    ensures Parse("1.2.4") == Success(Version(1, 2, 4, 0))
    ensures Less(Version(1, 2, 3, 0), Version(1, 2, 4, 0))
  {
    assert "1.2.4" == Join(["1", "2", "4"], '.');
    ParseJoined(["1", "2", "4"], Version(1, 2, 4, 0));
  }

  /** The part count is checked before the parts: "a.b" is a count error. */
  lemma CountCheckedFirst()
    ensures Parse("") == Failure(Empty)
    ensures Parse("a.b") == Failure(WrongPartCount)
  {
    assert "a.b" == Join(["a", "b"], '.');
    SplitJoin(["a", "b"], '.');
  }

  /** An empty part between two dots is not an integer. */
  lemma DoubleDotRejected()
    ensures Parse("1..2.3") == Failure(NonNumericPart)
  {
    var pieces := ["1", "", "2", "3"];
    assert "1..2.3" == Join(pieces, '.');
    SplitJoin(pieces, '.');
    assert !IsIntLiteral(Split("1..2.3", '.')[1]);
  }

  /** A trailing dot leaves an empty last part, which is not an integer. */
  lemma TrailingDotRejected()
    ensures Parse("1.2.3.") == Failure(NonNumericPart)
  {
    var pieces := ["1", "2", "3", ""];
    assert "1.2.3." == Join(pieces, '.');
    SplitJoin(pieces, '.');
    assert !IsIntLiteral(Split("1.2.3.", '.')[3]);
  }

  /** `int()` accepts a sign and leading zeros: "-1.+2.03" is (-1, 2, 3, 0). */
  lemma SignsAndLeadingZeros()
    ensures Parse("-1.+2.03") == Success(Version(-1, 2, 3, 0))
  {
    var pieces := ["-1", "+2", "03"];
    assert "-1.+2.03" == Join(pieces, '.');
    assert "-1"[1..] == "1" && "+2"[1..] == "2";
    assert ParseInt("-1") == Some(-1) && ParseInt("+2") == Some(2);
    assert "03" == "0" + "3";
    LeadingZeroIgnored("3");
    assert ParseInt("3") == Some(3);
    ParseJoined(pieces, Version(-1, 2, 3, 0));
  }
}
