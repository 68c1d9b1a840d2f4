/**
 * What the field loops make of the text they read: coordinates in degrees
 * and minutes, the hemisphere and status letters, and the course latch.
 */
module Decoding {
  import opened CppString
  import opened Sentence

  /** With its '.' at `dot`, at least two characters in, a field is the
      degrees in front of the two minute digits plus the minutes over sixty. */
  lemma CoordinateSplit(text: seq<char>, dot: nat, degrees: real, minutes: real)
    requires 2 <= dot && FindChar(text, '.', 0) == dot
    requires Stof(text[..dot - 2]) == Converted(degrees)
    requires Stof(text[dot - 2..]) == Converted(minutes)
    ensures Coordinate(text) == Converted(degrees + minutes / 60.0)
  {
    SubstrSlice(text, 0, dot - 2);
  }

  /** A field of digits, two digits of minutes, a '.', and the fraction of
      the minutes is read as degrees plus minutes over sixty. */
  lemma CoordinateValue(d: seq<char>, m: seq<char>, frac: seq<char>)
    requires |d| > 0 && AllDigits(d) && |m| == 2 && AllDigits(m) && AllDigits(frac)
    ensures Coordinate(d + m + ['.'] + frac) == Converted(DigitsValue(d) as real + Decimal(m, frac) / 60.0)
  {
    CoordinateLayout(d, m, frac);
    DegreesValue(d);
    MinutesValue(m, frac);
    CoordinateSplit(d + m + ['.'] + frac, |d| + 2, DigitsValue(d) as real, Decimal(m, frac));
  }

  /** Where the degrees, the minutes and the '.' of such a field are */
  lemma CoordinateLayout(d: seq<char>, m: seq<char>, frac: seq<char>)
    requires AllDigits(d) && |m| == 2 && AllDigits(m)
    ensures var text := d + m + ['.'] + frac;
      FindChar(text, '.', 0) == |d| + 2 && text[..|d|] == d && text[|d|..] == m + ['.'] + frac
  {
    var text := d + m + ['.'] + frac;
    assert text == d + (m + ['.'] + frac);
    DotAfterDigits(d, m, frac);
  }

  /** `stof` of the degrees */
  lemma DegreesValue(d: seq<char>)
    requires |d| > 0 && AllDigits(d)
    ensures Stof(d) == Converted(DigitsValue(d) as real)
  {
    assert d + [] == d;
    ParseDigits(d, []);
  }

  /** `stof` of the minutes with their fraction */
  lemma MinutesValue(m: seq<char>, frac: seq<char>)
    requires |m| > 0 && AllDigits(m) && AllDigits(frac)
    ensures Stof(m + ['.'] + frac) == Converted(Decimal(m, frac))
  {
    assert m + ['.'] + frac + [] == m + ['.'] + frac;
    ParseDecimal(m, frac, []);
  }

  /** The first '.' after a run of digits is the one that ends it. */
  lemma DotAfterDigits(d: seq<char>, m: seq<char>, frac: seq<char>)
    requires AllDigits(d) && AllDigits(m)
    ensures FindChar(d + (m + ['.'] + frac), '.', 0) == |d| + |m|
  {
    var text := d + (m + ['.'] + frac);
    forall j | 0 <= j < |d| + |m|
      ensures text[j] != '.'
    {
      if j < |d| { assert text[j] == d[j]; } else { assert text[j] == m[j - |d|]; }
    }
    FindCharAt(text, '.', 0, |d| + |m|);
  }

  /** A '.' with fewer than three characters in front of it leaves no
      degrees: the first `stof` gets an empty string, or the second
      `substr` starts in front of the field. */
  lemma CoordinateNeedsDegrees(text: seq<char>)
    requires 0 <= FindChar(text, '.', 0) <= 2
    ensures Coordinate(text).Raised?
    ensures FindChar(text, '.', 0) == 2 ==> Coordinate(text) == Raised(InvalidArgument)
  {
    var dot := FindChar(text, '.', 0);
    if dot == 2 {
      assert Substr(text, 0, 0) == [];
      assert ParseFloat([]).None?;
    }
  }

  /** A field without a '.' never converts; an empty field, the field of a
      receiver without a fix, makes `stof` throw `std::invalid_argument`. */
  lemma CoordinateNeedsDot(text: seq<char>)
    requires '.' !in text
    ensures Coordinate(text).Raised?
    ensures text == [] ==> Coordinate(text) == Raised(InvalidArgument)
  {
    FindCharNone(text, '.', 0);
    if text == [] {
      assert ParseFloat([]).None?;
    }
  }

  /** 48 degrees and 7.038 minutes */
  lemma CoordinateExample()
    ensures Coordinate("4807.038") == Converted(48.0 + 7.038 / 60.0)
  {
    ExampleParts();
    CoordinateValue("48", "07", "038");
  }

  /** The parts of "4807.038" and their values */
  lemma ExampleParts()
    ensures "48" + "07" + ['.'] + "038" == "4807.038"
    ensures DigitsValue("48") as real + Decimal("07", "038") / 60.0 == 48.0 + 7.038 / 60.0
  {
    assert DigitsValue("48") == 48 by {
      assert "48"[..1] == "4";
      assert "4"[..0] == [];
    }
    assert FractionValue("038") == 0.038 by {
      assert "038"[1..] == "38";
      assert "38"[1..] == "8";
      assert "8"[1..] == [];
    }
    assert DigitsValue("07") == 7 by {
      assert "07"[..1] == "0";
      assert "0"[..0] == [];
    }
  }

  /** The status flag is set before anything can throw, and says whether the
      status text is anything but "V". */
  lemma StatusAlwaysSet(f: ParserState, t: RmcFields)
    ensures DecodeRmc(f, t).state.isStatus == (t.status != "V")
  {
    PositionFrame(f.(isStatus := t.status != "V"), t);
  }

  /** Nothing after the status writes the status flag. */
  lemma PositionFrame(f: ParserState, t: RmcFields)
    ensures DecodePosition(f, t).state.isStatus == f.isStatus
  {
    match Coordinate(t.latitude)
    case Raised(e) =>
    case Converted(lat) =>
      LongitudeFrame(f.(latitude := lat, isNorth := t.north == "N"), t);
  }

  /** Nothing after the latitude writes the status, the latitude or its
      hemisphere. */
  lemma LongitudeFrame(f: ParserState, t: RmcFields)
    ensures var g := DecodeLongitude(f, t).state;
      g.isStatus == f.isStatus && g.latitude == f.latitude && g.isNorth == f.isNorth
  {
    match Coordinate(t.longitude)
    case Raised(e) =>
    case Converted(lon) =>
      var g := f.(longitude := lon, isEast := t.east == "E");
      if t.course != [] {
        match Stof(t.course)
        case Raised(e) =>
        case Converted(v) =>
      }
  }

  /** The RMC loop runs to the end exactly when both coordinates convert and
      the course is empty or converts. */
  lemma RmcCompletes(f: ParserState, t: RmcFields)
    ensures DecodeRmc(f, t).Running? <==>
      Coordinate(t.latitude).Converted? && Coordinate(t.longitude).Converted? &&
      (t.course == [] || Stof(t.course).Converted?)
  {
  }

  /** A converted latitude is stored with its hemisphere: north exactly when
      the letter is "N". A latitude that throws leaves every field but the
      status as it was. */
  lemma LatitudeStored(f: ParserState, t: RmcFields)
    ensures Coordinate(t.latitude).Converted? ==>
      DecodeRmc(f, t).state.latitude == Coordinate(t.latitude).value &&
      DecodeRmc(f, t).state.isNorth == (t.north == "N")
    ensures Coordinate(t.latitude).Raised? ==>
      DecodeRmc(f, t) == Stopped(f.(isStatus := t.status != "V"), Coordinate(t.latitude).fault)
  {
    var f1 := f.(isStatus := t.status != "V");
    match Coordinate(t.latitude)
    case Raised(e) =>
    case Converted(lat) =>
      LongitudeFrame(f1.(latitude := lat, isNorth := t.north == "N"), t);
  }

  /** A converted longitude, after a converted latitude, is stored with its
      hemisphere: east exactly when the letter is "E". */
  lemma LongitudeStored(f: ParserState, t: RmcFields)
    requires Coordinate(t.latitude).Converted? && Coordinate(t.longitude).Converted?
    ensures DecodeRmc(f, t).state.longitude == Coordinate(t.longitude).value
    ensures DecodeRmc(f, t).state.isEast == (t.east == "E")
  {
    if t.course != [] {
      match Stof(t.course)
      case Raised(e) =>
      case Converted(v) =>
    }
  }

  /** The course the parser holds is always the last one it converted: the
      latch keeps the current and the previous course equal, and changes
      them only for a field that converts. */
  lemma LatchKeepsLastCourse(f: ParserState, text: seq<char>)
    requires f.courseOverGround == f.prevCourseOverGround
    ensures var g := Latch(f, text).state;
      g.courseOverGround == g.prevCourseOverGround &&
      g.courseOverGround == if text != [] && Stof(text).Converted? then Stof(text).value else f.courseOverGround
  {
  }

  /** A non-empty course field marks a course as seen for good, even when it
      does not convert; an empty field only clears the present flag. */
  lemma LatchMarksSeen(f: ParserState, text: seq<char>)
    ensures Latch(f, text).state.isFirstCourseOverGround == (f.isFirstCourseOverGround && text == [])
    ensures Latch(f, text).state.isCourseOverGround == (text != [])
  {
  }

  /** The RMC loop marks a course as seen exactly when it gets to a
      non-empty course field, that is when both coordinates convert. */
  lemma DecodeRmcMarksSeen(f: ParserState, t: RmcFields)
    ensures DecodeRmc(f, t).state.isFirstCourseOverGround ==
      (f.isFirstCourseOverGround &&
       !(Coordinate(t.latitude).Converted? && Coordinate(t.longitude).Converted? && t.course != []))
  {
    var f1 := f.(isStatus := t.status != "V");
    match Coordinate(t.latitude)
    case Raised(e) =>
    case Converted(lat) =>
      var f2 := f1.(latitude := lat, isNorth := t.north == "N");
      match Coordinate(t.longitude)
      case Raised(e) =>
      case Converted(lon) =>
        LatchMarksSeen(f2.(longitude := lon, isEast := t.east == "E"), t.course);
  }

  /** With both coordinates converted, the course the RMC loop leaves: an
      empty field keeps the flags and falls back to the previous course
      once one was seen; a non-empty one is stored, or its `stof` throws. */
  lemma DecodeRmcCourse(f: ParserState, t: RmcFields)
    requires Coordinate(t.latitude).Converted? && Coordinate(t.longitude).Converted?
    ensures var p := DecodeRmc(f, t);
      (t.course == [] ==>
         (p.Running? && !p.state.isCourseOverGround &&
          p.state.isFirstCourseOverGround == f.isFirstCourseOverGround &&
          (!f.isFirstCourseOverGround ==> p.state.courseOverGround == f.prevCourseOverGround))) &&
      (t.course != [] ==>
         (!p.state.isFirstCourseOverGround &&
          (p.Running? <==> Stof(t.course).Converted?) &&
          (p.Running? ==> p.state.courseOverGround == Stof(t.course).value) &&
          (p.Stopped? ==> p.fault == Stof(t.course).fault)))
  {
  }

  /** The VTG loop: the heading flag ends cleared whatever the heading
      field holds, the reference flag says whether the letter is "T", and
      a heading that converts is stored. */
  lemma VtgFieldsSet(f: ParserState, t: VtgFields)
    ensures DecodeVtg(f, t).Running? ==>
      !DecodeVtg(f, t).state.isTrueHeading && DecodeVtg(f, t).state.isTrue == (t.reference == "T")
    ensures DecodeVtg(f, t).Stopped? <==> t.heading != [] && Stof(t.heading).Raised?
    ensures t.heading != [] && Stof(t.heading).Converted? ==>
      DecodeVtg(f, t).state.trueHeading == Stof(t.heading).value
    ensures DecodeVtg(f, t).Stopped? ==> DecodeVtg(f, t).state == f
  {
  }
}
