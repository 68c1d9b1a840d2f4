/**
 * What `nmeaCallback` publishes, and what it leaves in the fields for the
 * next sentence, over one callback and over a run of them.
 */
module Publishing {
  import opened CppString
  import opened Checksum
  import opened Sentence
  import opened Properties
  import opened Decoding

  /** The course rule holds after the longitude and the latch. */
  lemma LongitudeKeepsCourseRule(f: ParserState, t: RmcFields)
    requires f.isCourseOverGround ==> !f.isFirstCourseOverGround
    ensures var g := DecodeLongitude(f, t).state;
      g.isCourseOverGround ==> !g.isFirstCourseOverGround
  {
    match Coordinate(t.longitude)
    case Raised(e) =>
    case Converted(lon) =>
      LatchMarksSeen(f.(longitude := lon, isEast := t.east == "E"), t.course);
  }

  /** The course rule holds after the RMC loop. */
  lemma RmcKeepsCourseRule(f: ParserState, t: RmcFields)
    requires f.isCourseOverGround ==> !f.isFirstCourseOverGround
    ensures var g := DecodeRmc(f, t).state;
      g.isCourseOverGround ==> !g.isFirstCourseOverGround
  {
    var f1 := f.(isStatus := t.status != "V");
    match Coordinate(t.latitude)
    case Raised(e) =>
    case Converted(lat) =>
      LongitudeKeepsCourseRule(f1.(latitude := lat, isNorth := t.north == "N"), t);
  }

  /** `nmeaProcess` keeps the parser consistent: a course is marked present
      only once one was latched, and the heading flag stays clear. */
  lemma ProcessKeepsConsistent(f: ParserState, buf: seq<char>)
    requires Consistent(f)
    ensures Consistent(AfterProcess(f, buf).state)
  {
    if Contains(buf, "RMC") {
      RmcPrecedence(f, buf);
      var c := f.(isRMC := true);
      match Gate(c, buf)
      case Some(r) => GateFrame(c, buf);
      case None => RmcKeepsCourseRule(c.(isChecksum := true), RmcFieldsOf(buf));
    } else if Contains(buf, "VTG") {
      VtgPath(f, buf);
      var c := f.(isVTG := true);
      match Gate(c, buf)
      case Some(r) => GateFrame(c, buf);
      case None => VtgFieldsSet(c.(isChecksum := true), VtgFieldsOf(buf));
    }
  }

  /** Publishing and resetting keep the parser consistent. */
  lemma PublishKeepsConsistent(g: ParserState, outcome: Outcome)
    requires Consistent(g)
    ensures Consistent(Publish(g, outcome).state)
  {
  }

  /** One callback keeps the parser consistent. */
  lemma CallbackKeepsConsistent(f: ParserState, sentence: seq<char>)
    requires Consistent(f)
    ensures Consistent(AfterCallback(f, sentence).state)
  {
    ProcessKeepsConsistent(f, sentence);
    var p := AfterProcess(f, sentence);
    PublishKeepsConsistent(p.state, p.outcome);
  }

  /** Any run of callbacks from a consistent parser, the freshly set up one
      included, leaves it consistent. */
  lemma {:induction false} RunKeepsConsistent(f: ParserState, sentences: seq<seq<char>>)
    requires Consistent(f)
    ensures Consistent(Run(f, sentences))
    decreases |sentences|
  {
    if sentences != [] {
      CallbackKeepsConsistent(f, sentences[0]);
      RunKeepsConsistent(AfterCallback(f, sentences[0]).state, sentences[1..]);
    }
  }

  /** The heading log line is never written: the VTG loop always clears the
      heading flag the log needs. */
  lemma HeadingNeverLogged(f: ParserState, sentence: seq<char>)
    requires Consistent(f)
    ensures AfterCallback(f, sentence).emitted.heading == None
  {
    ProcessKeepsConsistent(f, sentence);
  }

  /** What each callback of a run publishes */
  function Trace(f: ParserState, sentences: seq<seq<char>>): (r: seq<Emitted>)
    ensures |r| == |sentences|
    decreases |sentences|
  {
    if sentences == [] then []
    else [AfterCallback(f, sentences[0]).emitted] + Trace(AfterCallback(f, sentences[0]).state, sentences[1..])
  }

  /** No run of callbacks from a consistent parser logs a heading. */
  lemma {:induction false} NoHeadingInRun(f: ParserState, sentences: seq<seq<char>>)
    requires Consistent(f)
    ensures forall i :: 0 <= i < |sentences| ==> Trace(f, sentences)[i].heading == None
    decreases |sentences|
  {
    if sentences != [] {
      HeadingNeverLogged(f, sentences[0]);
      CallbackKeepsConsistent(f, sentences[0]);
      NoHeadingInRun(AfterCallback(f, sentences[0]).state, sentences[1..]);
    }
  }

  /** The freshly set up parser is consistent. */
  lemma InitialConsistent()
    ensures Consistent(Initial())
    ensures Initial().courseOverGround == Initial().prevCourseOverGround
  {
  }

  /** A course goes out exactly with a fix whose processing left a course
      marked as seen. From the set-up state that mark comes only from an RMC
      sentence, this one or an earlier one, whose checksum matched, whose
      coordinates converted and whose course field was non-empty
      (`CourseLatchedByHistory`). */
  lemma CourseEmitted(f: ParserState, sentence: seq<char>)
    requires Consistent(f)
    ensures var d := AfterCallback(f, sentence);
      d.emitted.course.Some? <==>
        d.emitted.fix.Some? && !AfterProcess(f, sentence).state.isFirstCourseOverGround
  {
    ProcessKeepsConsistent(f, sentence);
  }

  /** The parser's current and previous course agree */
  predicate CourseSettled(f: ParserState) {
    f.courseOverGround == f.prevCourseOverGround
  }

  /** The course the RMC loop leaves is the one its course field converts
      to, or the one held before. */
  lemma RmcCourse(f: ParserState, t: RmcFields)
    requires CourseSettled(f)
    ensures var p := DecodeRmc(f, t);
      CourseSettled(p.state) &&
      (p.Running? && t.course != [] ==> p.state.courseOverGround == Stof(t.course).value) &&
      (p.Running? && t.course == [] ==> p.state.courseOverGround == f.courseOverGround)
  {
    var f1 := f.(isStatus := t.status != "V");
    match Coordinate(t.latitude)
    case Raised(e) =>
    case Converted(lat) =>
      var f2 := f1.(latitude := lat, isNorth := t.north == "N");
      match Coordinate(t.longitude)
      case Raised(e) =>
      case Converted(lon) =>
        LatchKeepsLastCourse(f2.(longitude := lon, isEast := t.east == "E"), t.course);
  }

  /** One callback keeps the current and the previous course equal, so the
      fallback to the previous course on an empty field never changes the
      course. */
  lemma CallbackKeepsCourseSettled(f: ParserState, sentence: seq<char>)
    requires CourseSettled(f)
    ensures CourseSettled(AfterCallback(f, sentence).state)
  {
    ProcessKeepsCourseSettled(f, sentence);
  }

  /** `nmeaProcess` keeps the current and the previous course equal. */
  lemma ProcessKeepsCourseSettled(f: ParserState, sentence: seq<char>)
    requires CourseSettled(f)
    ensures CourseSettled(AfterProcess(f, sentence).state)
  {
    if Contains(sentence, "RMC") {
      RecognizedLength(sentence);
      ProcessRmcKeepsCourse(f.(isRMC := true), sentence);
    } else if Contains(sentence, "VTG") {
      VtgPath(f, sentence);
    }
  }

  /** The RMC branch keeps the current and the previous course equal. */
  lemma ProcessRmcKeepsCourse(f: ParserState, sentence: seq<char>)
    requires |sentence| >= 2 && CourseSettled(f)
    ensures CourseSettled(ProcessRmc(f, sentence).state)
  {
    match Gate(f, sentence)
    case Some(r) => GateFrame(f, sentence);
    case None => RmcCourse(f.(isChecksum := true), RmcFieldsOf(sentence));
  }

  /** Every run from the freshly set up parser keeps the courses equal. */
  lemma {:induction false} RunKeepsCourseSettled(f: ParserState, sentences: seq<seq<char>>)
    requires CourseSettled(f)
    ensures CourseSettled(Run(f, sentences))
    decreases |sentences|
  {
    if sentences != [] {
      CallbackKeepsCourseSettled(f, sentences[0]);
      RunKeepsCourseSettled(AfterCallback(f, sentences[0]).state, sentences[1..]);
    }
  }

  /** A sentence that latches a course for good: an RMC sentence whose
      checksum matches, whose coordinates convert so that the loop gets to
      field 7, and whose field 7 is not empty */
  predicate LatchesCourse(s: seq<char>) {
    Contains(s, "RMC") && ChecksumMatches(s) &&
    Coordinate(Field(s, 2)).Converted? && Coordinate(Field(s, 4)).Converted? && Field(s, 7) != []
  }

  /** The RMC branch marks a course as seen exactly for such a sentence. */
  lemma ProcessRmcMarksSeen(f: ParserState, s: seq<char>)
    requires |s| >= 2 && Contains(s, "RMC")
    ensures ProcessRmc(f, s).state.isFirstCourseOverGround ==
      (f.isFirstCourseOverGround && !LatchesCourse(s))
  {
    match Gate(f, s)
    case Some(r) => GateFrame(f, s);
    case None => DecodeRmcMarksSeen(f.(isChecksum := true), RmcFieldsOf(s));
  }

  /** One callback marks a course as seen exactly for such a sentence;
      nothing else, a VTG sentence or a publication, touches the mark. */
  lemma CallbackMarksSeen(f: ParserState, s: seq<char>)
    ensures AfterCallback(f, s).state.isFirstCourseOverGround ==
      (f.isFirstCourseOverGround && !LatchesCourse(s))
  {
    if Contains(s, "RMC") {
      RecognizedLength(s);
      ProcessRmcMarksSeen(f.(isRMC := true), s);
    } else if Contains(s, "VTG") {
      VtgPath(f, s);
    }
  }

  /** Over a run, the mark is cleared exactly when some sentence of the run
      latches a course. */
  lemma {:induction false} RunMarksSeen(f: ParserState, ss: seq<seq<char>>)
    ensures Run(f, ss).isFirstCourseOverGround ==
      (f.isFirstCourseOverGround && forall k | 0 <= k < |ss| :: !LatchesCourse(ss[k]))
    decreases |ss|
  {
    if ss != [] {
      CallbackMarksSeen(f, ss[0]);
      RunMarksSeen(AfterCallback(f, ss[0]).state, ss[1..]);
      NoneLatchSplit(ss);
    }
  }

  /** No sentence of `ss` latches exactly when neither its first nor any
      later one does. */
  lemma NoneLatchSplit(ss: seq<seq<char>>)
    requires ss != []
    ensures (forall k | 0 <= k < |ss| :: !LatchesCourse(ss[k])) <==>
      !LatchesCourse(ss[0]) && forall k | 0 <= k < |ss[1..]| :: !LatchesCourse(ss[1..][k])
  {
    if forall k | 0 <= k < |ss[1..]| :: !LatchesCourse(ss[1..][k]) {
      forall k | 1 <= k < |ss|
        ensures !LatchesCourse(ss[k])
      {
        assert ss[k] == ss[1..][k - 1];
      }
    }
  }

  /** From the freshly set up parser, a course is published with every
      later fix exactly once some sentence of the run latched one. */
  lemma CourseLatchedByHistory(ss: seq<seq<char>>)
    ensures !Run(Initial(), ss).isFirstCourseOverGround <==>
      exists k | 0 <= k < |ss| :: LatchesCourse(ss[k])
  {
    RunMarksSeen(Initial(), ss);
  }

  /** The course an RMC sentence that gets to field 7 publishes: the value
      of a non-empty field, nothing at all when that field does not convert
      (the exception), and for an empty field the previous course once one
      was seen. */
  lemma RmcCourseEmitted(f: ParserState, s: seq<char>)
    requires Contains(s, "RMC") && ChecksumMatches(s)
    requires Coordinate(Field(s, 2)).Converted? && Coordinate(Field(s, 4)).Converted?
    ensures var d := AfterCallback(f, s);
      var text := Field(s, 7);
      (text == [] ==>
         d.emitted.course == if f.isFirstCourseOverGround then None else Some(f.prevCourseOverGround)) &&
      (text != [] && Stof(text).Converted? ==> d.emitted.course == Some(Stof(text).value)) &&
      (text != [] && Stof(text).Raised? ==> d.emitted == Nothing && d.outcome == Threw(Stof(text).fault))
  {
    var c := f.(isRMC := true, isChecksum := true);
    var t := RmcFieldsOf(s);
    RmcProcessed(f, s);
    DecodeRmcCourse(c, t);
    DecodeRmcFrame(c, t);
    var p := DecodeRmc(c, t);
    match p
    case Stopped(g, e) =>
      assert AfterCallback(f, s) == Dispatched(g, Nothing, Threw(e));
    case Running(g) =>
      assert AfterCallback(f, s) == Publish(g, Decoded);
  }

  /** With a matching checksum, an RMC sentence is processed by the loop. */
  lemma RmcProcessed(f: ParserState, s: seq<char>)
    requires Contains(s, "RMC") && ChecksumMatches(s)
    ensures AfterProcess(f, s) == Finish(DecodeRmc(f.(isRMC := true, isChecksum := true), RmcFieldsOf(s)))
  {
    RecognizedLength(s);
  }

  /** For a sentence holding "RMC", a fix is published exactly when the
      checksum matches and every field converts. */
  lemma RmcFixPublished(f: ParserState, sentence: seq<char>)
    requires Contains(sentence, "RMC")
    ensures AfterCallback(f, sentence).emitted.fix.Some? <==>
      ChecksumMatches(sentence) && AfterProcess(f, sentence).outcome == Decoded
  {
    RecognizedLength(sentence);
    RmcPrecedence(f, sentence);
    if ExpectedChecksum(sentence).None? {
      UnreadableChecksum(f, sentence);
    } else if !ChecksumMatches(sentence) {
      MismatchReadsNothing(f, sentence);
    } else {
      MatchSetsChecksum(f, sentence);
    }
  }

  /** The fix an RMC sentence publishes: the status is a fix unless the
      status text is "V", and each coordinate is negated unless its letter
      is "N" or "E". */
  lemma RmcFix(f: ParserState, sentence: seq<char>, lat: real, lon: real)
    requires Contains(sentence, "RMC") && ChecksumMatches(sentence)
    requires Coordinate(Field(sentence, 2)) == Converted(lat)
    requires Coordinate(Field(sentence, 4)) == Converted(lon)
    requires Field(sentence, 7) == [] || Stof(Field(sentence, 7)).Converted?
    ensures AfterCallback(f, sentence).outcome == Decoded
    ensures AfterCallback(f, sentence).emitted.fix ==
      Some(Fix(StatusText(sentence) != "V", Signed(lat, Field(sentence, 3) == "N"),
               Signed(lon, Field(sentence, 5) == "E")))
  {
    var c := f.(isRMC := true, isChecksum := true);
    var t := RmcFieldsOf(sentence);
    RmcRunsThrough(f, sentence);
    StatusAlwaysSet(c, t);
    LatitudeStored(c, t);
    LongitudeStored(c, t);
    DecodeRmcFrame(c, t);
  }

  /** Such a sentence passes the checksum and runs the RMC loop to its end. */
  lemma RmcRunsThrough(f: ParserState, sentence: seq<char>)
    requires Contains(sentence, "RMC") && ChecksumMatches(sentence)
    requires Coordinate(Field(sentence, 2)).Converted? && Coordinate(Field(sentence, 4)).Converted?
    requires Field(sentence, 7) == [] || Stof(Field(sentence, 7)).Converted?
    ensures AfterProcess(f, sentence) ==
      Processed(DecodeRmc(f.(isRMC := true, isChecksum := true), RmcFieldsOf(sentence)).state, Decoded)
  {
    RmcCompletes(f.(isRMC := true, isChecksum := true), RmcFieldsOf(sentence));
  }

  /** An RMC sentence with a wrong checksum leaves the RMC flag set and
      publishes nothing. */
  lemma MismatchLeavesRmcFlag(f: ParserState, sentence: seq<char>)
    requires Contains(sentence, "RMC")
    requires |sentence| >= 2 && ExpectedChecksum(sentence).Some? && !ChecksumMatches(sentence)
    ensures AfterCallback(f, sentence) ==
      Dispatched(f.(isRMC := true, isChecksum := false), Nothing, ChecksumMismatch)
  {
    MismatchReadsNothing(f, sentence);
  }

  /** After an RMC sentence with a wrong checksum, a VTG sentence with a
      right one publishes a fix again, made of the fields the RMC sentence
      before the bad one left. */
  lemma StaleFixRepublished(f: ParserState, bad: seq<char>, vtg: seq<char>)
    requires Contains(bad, "RMC")
    requires |bad| >= 2 && ExpectedChecksum(bad).Some? && !ChecksumMatches(bad)
    requires !Contains(vtg, "RMC") && Contains(vtg, "VTG") && ChecksumMatches(vtg)
    requires Field(vtg, 0) == [] || Stof(Field(vtg, 0)).Converted?
    ensures AfterCallback(AfterCallback(f, bad).state, vtg).emitted.fix ==
      Some(Fix(f.isStatus, Signed(f.latitude, f.isNorth), Signed(f.longitude, f.isEast)))
  {
    MismatchLeavesRmcFlag(f, bad);
    var g := f.(isRMC := true, isChecksum := false);
    VtgPath(g, vtg);
    MatchSetsChecksum(g, vtg);
    VtgFieldsSet(g.(isVTG := true, isChecksum := true), VtgFieldsOf(vtg));
  }

  /** An RMC sentence laid out as comma-separated fields, address field
      first, publishes the fix its fields give: field 2 is the status,
      fields 3 and 5 the coordinates, fields 4 and 6 their hemispheres,
      field 8 the course. */
  lemma RmcSentenceFix(f: ParserState, fs: seq<seq<char>>, lat: real, lon: real)
    requires CommaFree(fs) && |fs| >= 9
    requires Contains(Join(fs), "RMC") && ChecksumMatches(Join(fs))
    requires Coordinate(fs[3]) == Converted(lat) && Coordinate(fs[5]) == Converted(lon)
    requires fs[8] == [] || Stof(fs[8]).Converted?
    ensures AfterCallback(f, Join(fs)).emitted.fix ==
      Some(Fix(!(fs[2] != [] && fs[2][0] == 'V'), Signed(lat, fs[4] == "N"), Signed(lon, fs[6] == "E")))
  {
    var buf := Join(fs);
    FieldOfJoin(fs, 1);
    FieldOfJoin(fs, 2);
    FieldOfJoin(fs, 3);
    FieldOfJoin(fs, 4);
    FieldOfJoin(fs, 5);
    FieldOfJoin(fs, 7);
    StatusIsFirstCharacter(buf);
    RmcFix(f, buf, lat, lon);
  }

  /** An RMC sentence with a right checksum whose latitude does not convert
      throws out of `nmeaProcess` with the RMC and checksum flags set and
      the status already written. */
  lemma ThrownRmcLeavesFlags(f: ParserState, rmc: seq<char>)
    requires Contains(rmc, "RMC") && ChecksumMatches(rmc)
    requires Coordinate(Field(rmc, 2)).Raised?
    ensures AfterCallback(f, rmc) ==
      Dispatched(f.(isRMC := true, isChecksum := true, isStatus := StatusText(rmc) != "V"),
                 Nothing, Threw(Coordinate(Field(rmc, 2)).fault))
  {
    var c := f.(isRMC := true, isChecksum := true);
    LatitudeStored(c, RmcFieldsOf(rmc));
    assert AfterProcess(f, rmc) == Finish(DecodeRmc(c, RmcFieldsOf(rmc)));
  }

  /** After such a sentence, the next sentence of any other kind, one the
      parser does not even recognize, publishes a fix: the status of the
      sentence that threw with the coordinates from before it. */
  lemma ThrownFixPublishedLater(f: ParserState, rmc: seq<char>, other: seq<char>)
    requires Contains(rmc, "RMC") && ChecksumMatches(rmc)
    requires Coordinate(Field(rmc, 2)).Raised?
    requires !Recognized(other)
    ensures AfterCallback(AfterCallback(f, rmc).state, other).emitted.fix ==
      Some(Fix(StatusText(rmc) != "V", Signed(f.latitude, f.isNorth), Signed(f.longitude, f.isEast)))
  {
    ThrownRmcLeavesFlags(f, rmc);
    UnrecognizedUnchanged(AfterCallback(f, rmc).state, other);
  }

  /** After such a sentence, a recognized sentence whose checksum does not
      match publishes nothing: the comparison clears the checksum flag, or
      throws on digits it cannot read, before the callback tests it. */
  lemma ThrownFixWithheld(f: ParserState, rmc: seq<char>, next: seq<char>)
    requires Contains(rmc, "RMC") && ChecksumMatches(rmc)
    requires Coordinate(Field(rmc, 2)).Raised?
    requires Recognized(next) && !ChecksumMatches(next)
    ensures AfterCallback(AfterCallback(f, rmc).state, next).emitted.fix.None?
  {
    ThrownRmcLeavesFlags(f, rmc);
    var g := AfterCallback(f, rmc).state;
    RecognizedLength(next);
    if ExpectedChecksum(next).None? {
      UnreadableChecksum(g, next);
    } else {
      MismatchReadsNothing(g, next);
    }
  }

  /** After such a sentence, a VTG sentence with a right checksum and a
      heading that is empty or converts publishes the same stale fix. */
  lemma ThrownFixPublishedByVtg(f: ParserState, rmc: seq<char>, vtg: seq<char>)
    requires Contains(rmc, "RMC") && ChecksumMatches(rmc)
    requires Coordinate(Field(rmc, 2)).Raised?
    requires !Contains(vtg, "RMC") && Contains(vtg, "VTG") && ChecksumMatches(vtg)
    requires Field(vtg, 0) == [] || Stof(Field(vtg, 0)).Converted?
    ensures AfterCallback(AfterCallback(f, rmc).state, vtg).emitted.fix ==
      Some(Fix(StatusText(rmc) != "V", Signed(f.latitude, f.isNorth), Signed(f.longitude, f.isEast)))
  {
    ThrownRmcLeavesFlags(f, rmc);
    var g := f.(isRMC := true, isChecksum := true, isStatus := StatusText(rmc) != "V");
    VtgPath(g, vtg);
    MatchSetsChecksum(g, vtg);
    VtgFieldsSet(g.(isVTG := true, isChecksum := true), VtgFieldsOf(vtg));
  }

  /** Neither flag pair that makes the callback publish is set */
  predicate NothingPending(f: ParserState) {
    !(f.isRMC && f.isChecksum) && !(f.isVTG && f.isChecksum)
  }

  /** A callback that does not throw leaves nothing pending for the next
      one, although a VTG sentence leaves the checksum flag set. */
  lemma CallbackSettles(f: ParserState, sentence: seq<char>)
    ensures !AfterCallback(f, sentence).outcome.Threw? ==> NothingPending(AfterCallback(f, sentence).state)
  {
  }

  /** With nothing pending, a sentence the parser does not recognize
      publishes nothing and changes nothing. */
  lemma UnrecognizedQuiet(f: ParserState, sentence: seq<char>)
    requires NothingPending(f) && !Recognized(sentence)
    ensures AfterCallback(f, sentence) == Dispatched(f, Nothing, Unrecognized)
  {
    UnrecognizedUnchanged(f, sentence);
  }

  /** After a VTG sentence is logged the checksum flag is still set. */
  lemma VtgKeepsChecksumFlag(f: ParserState, sentence: seq<char>)
    requires !Contains(sentence, "RMC") && Contains(sentence, "VTG") && ChecksumMatches(sentence)
    requires !f.isRMC
    ensures AfterCallback(f, sentence).state.isChecksum
  {
    VtgPath(f, sentence);
    MatchSetsChecksum(f, sentence);
  }

  /** Publishing a fix clears the RMC flags, and sets the hemispheres to
      south and west rather than back to their initial north and east. The
      latched and previous course, the coordinates and the VTG flag and
      fields stay. */
  lemma FixResets(f: ParserState, sentence: seq<char>)
    ensures var d := AfterCallback(f, sentence);
      var g := AfterProcess(f, sentence).state;
      d.emitted.fix.Some? ==>
        !d.state.isRMC && !d.state.isChecksum && !d.state.isStatus &&
        !d.state.isNorth && !d.state.isEast && !d.state.isCourseOverGround &&
        d.state.latitude == g.latitude && d.state.longitude == g.longitude &&
        d.state.courseOverGround == g.courseOverGround &&
        d.state.prevCourseOverGround == g.prevCourseOverGround &&
        d.state.isFirstCourseOverGround == g.isFirstCourseOverGround &&
        d.state.isVTG == g.isVTG && SameVtgFields(g, d.state)
  {
  }

  /** A logged VTG sentence clears the VTG flags; the heading stays. */
  lemma VtgResets(f: ParserState, sentence: seq<char>)
    ensures var d := AfterCallback(f, sentence);
      var g := AfterProcess(f, sentence).state;
      !d.outcome.Threw? && !(g.isRMC && g.isChecksum) && g.isVTG && g.isChecksum ==>
        !d.state.isVTG && !d.state.isTrueHeading && !d.state.isTrue && d.state.isChecksum &&
        d.state.trueHeading == g.trueHeading && d.emitted.fix.None?
  {
  }

  /** A fix republished from the fields a published fix left (see
      `FixResets`) reports no fix and carries its coordinates negated. */
  lemma StaleFixMirrored(g: ParserState, bad: seq<char>, vtg: seq<char>)
    requires !g.isStatus && !g.isNorth && !g.isEast
    requires Contains(bad, "RMC")
    requires |bad| >= 2 && ExpectedChecksum(bad).Some? && !ChecksumMatches(bad)
    requires !Contains(vtg, "RMC") && Contains(vtg, "VTG") && ChecksumMatches(vtg)
    requires Field(vtg, 0) == [] || Stof(Field(vtg, 0)).Converted?
    ensures AfterCallback(AfterCallback(g, bad).state, vtg).emitted.fix ==
      Some(Fix(false, -g.latitude, -g.longitude))
  {
    StaleFixRepublished(g, bad, vtg);
  }
}
