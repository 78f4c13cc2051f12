/** The database version value: parsed from `x.x.x` or `x.x.x.x`, kept as
    four integers, printed with all four parts, and ordered
    lexicographically over those four parts. */
module Versions {
  import opened Wrappers
  import opened Text
  import opened Decimal
  import opened ListOrder

  /** A version normalised to four parts; a three-part input has `build == 0`. */
  datatype Version = Version(major: int, minor: int, patch: int, build: int)

  /** Why a version string was rejected (each case a `ValueError` in Python). */
  datatype ParseError =
    | Empty           // the string is empty
    | WrongPartCount  // splitting on '.' gives neither 3 nor 4 parts
    | NonNumericPart  // some part is not an integer

  /** The `parts` tuple: major, minor, patch, build. */
  function Parts(v: Version): seq<int>
  {
    [v.major, v.minor, v.patch, v.build]
  }

  /** `[int(part) for part in parts]`, or `None` when any part is not an integer. */
  function ParseParts(parts: seq<string>): (r: Option<seq<int>>)
    ensures r.Some? <==> forall i :: 0 <= i < |parts| ==> IsIntLiteral(parts[i])
    ensures r.Some? ==> |r.value| == |parts|
    ensures r.Some? ==> forall i :: 0 <= i < |parts| ==> ParseInt(parts[i]) == Some(r.value[i])
  {
    if |parts| == 0 then Some([])
    else
      match ParseInt(parts[0])
      case None => None
      case Some(n) =>
        match ParseParts(parts[1..])
        case None => None
        case Some(ns) => Some([n] + ns)
  }

  /** `Version(version_str)`: the checks run in the order empty string,
      part count, numeric parts; a three-part version is padded with `0`. */
  function Parse(s: string): (r: Result<Version, ParseError>)
    ensures r == Failure(Empty) <==> s == ""
    ensures r == Failure(WrongPartCount) <==>
              s != "" && |Split(s, '.')| != 3 && |Split(s, '.')| != 4
    ensures r == Failure(NonNumericPart) <==>
              s != "" && |Split(s, '.')| in {3, 4} &&
              exists i :: 0 <= i < |Split(s, '.')| && !IsIntLiteral(Split(s, '.')[i])
    ensures r.Success? ==>
              var parts := Split(s, '.');
              && ParseInt(parts[0]) == Some(r.value.major)
              && ParseInt(parts[1]) == Some(r.value.minor)
              && ParseInt(parts[2]) == Some(r.value.patch)
              && (|parts| == 3 ==> r.value.build == 0)
              && (|parts| == 4 ==> ParseInt(parts[3]) == Some(r.value.build))
  {
    if s == "" then Failure(Empty)
    else
      var parts := Split(s, '.');
      if |parts| != 3 && |parts| != 4 then Failure(WrongPartCount)
      else
        match ParseParts(parts)
        case None => Failure(NonNumericPart)
        case Some(ns) =>
          Success(Version(ns[0], ns[1], ns[2], if |ns| == 3 then 0 else ns[3]))
  }

  /** `str(v)`: always all four parts, each written as `str()` writes an
      integer, joined by '.'. */
  function ToString(v: Version): (s: string)
    ensures s != ""
    ensures IsCanonicalVersion(s)
    ensures forall i :: 0 <= i < 4 ==> ParseInt(Split(s, '.')[i]) == Some(Parts(v)[i])
  {
    var pieces := [IntToString(v.major), IntToString(v.minor),
                   IntToString(v.patch), IntToString(v.build)];
    SplitJoin(pieces, '.');
    Join(pieces, '.')
  }

  /** Text in the form the printer produces: four dot-separated parts, each
      a canonical integer (no '+', no leading zero, '-' only before a
      non-zero value). */
  predicate IsCanonicalVersion(s: string)
  {
    var parts := Split(s, '.');
    |parts| == 4 && forall i :: 0 <= i < 4 ==> IsCanonicalInt(parts[i])
  }

  /** `a == b`: equality of the four-part tuples, which is equality of the values. */
  function Eq(a: Version, b: Version): (r: bool)
    ensures r <==> a == b
  {
    if Parts(a) == Parts(b) then
      assert Parts(a)[0] == Parts(b)[0] && Parts(a)[1] == Parts(b)[1];
      assert Parts(a)[2] == Parts(b)[2] && Parts(a)[3] == Parts(b)[3];
      true
    else false
  }

  /** `a < b`: list comparison of the parts, which is the lexicographic
      order on (major, minor, patch, build). */
  function Less(a: Version, b: Version): (r: bool)
    ensures r <==> LexLess(a, b)
  {
    PartsLtIsLexicographic(a, b);
    ListCompare(Parts(a), Parts(b), Lt)
  }

  /** `a <= b`: holds exactly when `a < b` or `a == b`. */
  function LessEq(a: Version, b: Version): (r: bool)
    ensures r <==> Less(a, b) || a == b
  {
    LeIsLtOrEqual(Parts(a), Parts(b));
    assert Parts(a) == Parts(b) <==> Eq(a, b);
    ListCompare(Parts(a), Parts(b), Le)
  }

  /** `a > b`: holds exactly when `b < a`. */
  function Greater(a: Version, b: Version): (r: bool)
    ensures r <==> Less(b, a)
  {
    GtIsFlippedLt(Parts(a), Parts(b));
    ListCompare(Parts(a), Parts(b), Gt)
  }

  /** `a >= b`: holds exactly when `b <= a`. */
  function GreaterEq(a: Version, b: Version): (r: bool)
    ensures r <==> LessEq(b, a)
  {
    GeIsFlippedLe(Parts(a), Parts(b));
    ListCompare(Parts(a), Parts(b), Ge)
  }

  /** `hash(v)`: the hash of the parts tuple under the (foreign) tuple hash. */
  function Hash(v: Version, tupleHash: seq<int> -> int): int
  {
    tupleHash(Parts(v))
  }

  // ---------------------------------------------------------------------------
  // Parsing

  /** The part-count check, stated on the input: a string with neither two
      nor three dots is rejected for its part count, whatever its parts. */
  lemma WrongPartCountByDots(s: string)
    ensures Parse(s) == Failure(WrongPartCount) <==>
              s != "" && Count(s, '.') != 2 && Count(s, '.') != 3
  {
    SplitLength(s, '.');
  }

  /** A three-part version equals its explicit four-part form with build 0:
      for every string with exactly two dots, appending ".0" changes nothing,
      neither the parsed version nor the error. */
  lemma ThreePartsPadded(s: string)
    requires Count(s, '.') == 2
    ensures Parse(s + ".0") == Parse(s)
  {
    SplitLength(s, '.');
    var parts := Split(s, '.');
    JoinAppend(parts, '.', "0");
    assert s + ".0" == Join(parts, '.') + ['.'] + "0";
    var parts' := parts + ["0"];
    assert forall i :: 0 <= i < |parts'| ==> '.' !in parts'[i] by {
      forall i | 0 <= i < |parts'|
        ensures '.' !in parts'[i]
      {
        if i < |parts| {
          assert parts'[i] == parts[i];
        }
      }
    }
    SplitJoin(parts', '.');
    assert Split(s + ".0", '.') == parts';
    assert ParseInt("0") == Some(0);
    if Parse(s).Failure? {
      assert Parse(s) == Failure(NonNumericPart);
      var i :| 0 <= i < |parts| && !IsIntLiteral(parts[i]);
      assert parts'[i] == parts[i];
    } else {
      assert forall i :: 0 <= i < |parts| ==> parts'[i] == parts[i];
    }
  }

  /** Every well-formed input is accepted: three or four dot-free integer
      texts, joined by dots, parse to the version they spell (build 0 when
      there are three). */
  lemma ParseJoined(pieces: seq<string>, v: Version)
    requires |pieces| == 3 || |pieces| == 4
    requires forall i :: 0 <= i < |pieces| ==> '.' !in pieces[i]
    requires forall i :: 0 <= i < |pieces| ==> ParseInt(pieces[i]) == Some(Parts(v)[i])
    requires |pieces| == 3 ==> v.build == 0
    ensures Parse(Join(pieces, '.')) == Success(v)
  {
    var s := Join(pieces, '.');
    SplitJoin(pieces, '.');
    assert Split(s, '.') == pieces;
    assert s != "" by {
      assert |Split(s, '.')| != |Split("", '.')|;
    }
    assert forall i :: 0 <= i < |pieces| ==> IsIntLiteral(pieces[i]);
    assert Parse(s).Success?;
    assert ParseInt(pieces[0]) == Some(v.major);
    assert ParseInt(pieces[1]) == Some(v.minor);
    assert ParseInt(pieces[2]) == Some(v.patch);
    if |pieces| == 4 {
      assert ParseInt(pieces[3]) == Some(v.build);
    }
  }

  /** Printing then parsing gives the version back. */
  lemma ParseToString(v: Version)
    ensures Parse(ToString(v)) == Success(v)
  {
  }

  /** Parsing inverts printing on canonical text: a canonical four-part
      string is accepted, and printing its version gives the string back. So
      `ToString(v)` is the only canonical spelling of `v`. */
  lemma ToStringOfParse(s: string)
    requires IsCanonicalVersion(s)
    ensures Parse(s).Success?
    ensures ToString(Parse(s).value) == s
  {
    var parts := Split(s, '.');
    forall i | 0 <= i < 4
      ensures ParseInt(parts[i]).Some? && IntToString(ParseInt(parts[i]).value) == parts[i]
    {
      IntToStringOfParseInt(parts[i]);
    }
    assert s != "" by {
      assert |Split(s, '.')| != |Split("", '.')|;
    }
    assert Parse(s).Success?;
    var v := Parse(s).value;
    var pieces := [IntToString(v.major), IntToString(v.minor),
                   IntToString(v.patch), IntToString(v.build)];
    assert pieces == parts;
  }

  // ---------------------------------------------------------------------------
  // Equality, hashing and ordering

  /** Equal versions hash alike, whatever the tuple hash is. */
  lemma HashRespectsEq(a: Version, b: Version, tupleHash: seq<int> -> int)
    requires Eq(a, b)
    ensures Hash(a, tupleHash) == Hash(b, tupleHash)
  {
  }

  /** Field-by-field lexicographic order: the order the comparison operators promise. */
  predicate LexLess(a: Version, b: Version)
  {
    || a.major < b.major
    || (a.major == b.major && a.minor < b.minor)
    || (a.major == b.major && a.minor == b.minor && a.patch < b.patch)
    || (a.major == b.major && a.minor == b.minor && a.patch == b.patch && a.build < b.build)
  }

  /** List `<` on two parts tuples is the field-by-field order. */
  lemma PartsLtIsLexicographic(a: Version, b: Version)
    ensures ListCompare(Parts(a), Parts(b), Lt) <==> LexLess(a, b)
  {
    var pa, pb := Parts(a), Parts(b);
    var pa1, pb1 := [a.minor, a.patch, a.build], [b.minor, b.patch, b.build];
    var pa2, pb2 := [a.patch, a.build], [b.patch, b.build];
    var pa3, pb3 := [a.build], [b.build];
    assert pa[1..] == pa1 && pb[1..] == pb1;
    assert pa1[1..] == pa2 && pb1[1..] == pb2;
    assert pa2[1..] == pa3 && pb2[1..] == pb3;
    assert pa3[1..] == [] && pb3[1..] == [];
    assert ListCompare(pa3, pb3, Lt) <==> a.build < b.build;
    assert ListCompare(pa2, pb2, Lt) <==>
             a.patch < b.patch || (a.patch == b.patch && a.build < b.build);
    assert ListCompare(pa1, pb1, Lt) <==>
             a.minor < b.minor || (a.minor == b.minor && ListCompare(pa2, pb2, Lt));
  }

  /** Exactly one of `a < b`, `a == b`, `a > b` holds. */
  lemma Trichotomy(a: Version, b: Version)
    ensures Less(a, b) || Eq(a, b) || Greater(a, b)
    ensures !(Less(a, b) && Eq(a, b))
    ensures !(Less(a, b) && Greater(a, b))
    ensures !(Eq(a, b) && Greater(a, b))
  {
    LtTrichotomy(Parts(a), Parts(b));
  }

  /** `<` is transitive, so with trichotomy it is a strict total order. */
  lemma LessTransitive(a: Version, b: Version, c: Version)
    requires Less(a, b) && Less(b, c)
    ensures Less(a, c)
  {
    LtTransitive(Parts(a), Parts(b), Parts(c));
  }

  /** `<=` is a total order: total, antisymmetric and transitive. */
  lemma LessEqTotalOrder(a: Version, b: Version, c: Version)
    ensures LessEq(a, b) || LessEq(b, a)
    ensures LessEq(a, b) && LessEq(b, a) ==> a == b
    ensures LessEq(a, b) && LessEq(b, c) ==> LessEq(a, c)
  {
  }
}
