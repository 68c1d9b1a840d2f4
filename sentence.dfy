/**
 * What `NMEAParser::nmeaProcess` and `NMEAParser::nmeaCallback` do to the
 * parser's fields, stated as functions over a record of those fields.
 *
 * Fields of a sentence are found the way the parser finds them: the loop
 * calls `find(",", pos + 1)` once per field, keeping the result in an `int`,
 * so a missing comma gives -1 and the next search starts again from the
 * front of the sentence. Field `i` is the text after the comma the loop
 * reaches on its (i+1)-th search, up to the next comma or the end.
 */
module Sentence {
  import opened CppString
  import opened Checksum

  /** The private fields of the parser object */
  datatype ParserState = ParserState(
    isRMC: bool,
    isVTG: bool,
    isChecksum: bool,
    isStatus: bool,
    latitude: real,
    isNorth: bool,
    longitude: real,
    isEast: bool,
    isCourseOverGround: bool,
    isFirstCourseOverGround: bool,
    prevCourseOverGround: real,
    courseOverGround: real,
    trueHeading: real,
    isTrueHeading: bool,
    isTrue: bool)

  /** The C++ exceptions a sentence can raise: `std::invalid_argument` from
      `stoi`/`stof`, `std::out_of_range` from `substr` */
  datatype Fault = InvalidArgument | OutOfRange

  /** How the processing of one sentence ended */
  datatype Outcome = Unrecognized | ChecksumMismatch | Decoded | Threw(fault: Fault)

  /** The fields after some steps of a field loop, and whether it was cut short */
  datatype Progress = Running(state: ParserState) | Stopped(state: ParserState, fault: Fault)

  /** The fields after one call of `nmeaProcess`, and how it ended */
  datatype Processed = Processed(state: ParserState, outcome: Outcome)

  /** A loop iteration that went on, or stopped with the exception it raised */
  function Resume(f: ParserState, fault: Option<Fault>): Progress {
    if fault.None? then Running(f) else Stopped(f, fault.value)
  }

  /** A number converted from a field, or the exception the conversion raised */
  datatype Conversion = Converted(value: real) | Raised(fault: Fault)

  /** What `initSetup` assigns */
  function Initial(): ParserState {
    ParserState(false, false, false, false, 0.0, true, 0.0, true,
                false, true, 0.0, 0.0, 0.0, false, false)
  }

  /** The two facts the parser keeps between sentences: a course is marked
      present only once one has been latched, and the heading flag is never
      left set. */
  predicate Consistent(f: ParserState) {
    (f.isCourseOverGround ==> !f.isFirstCourseOverGround) && !f.isTrueHeading
  }

  /** `pos` after `n` calls of `pos = buf.find(",", pos + 1)` starting at -1 */
  function Comma(buf: seq<char>, n: nat): (p: int)
    ensures -1 <= p < |buf|
    ensures p >= 0 ==> buf[p] == ','
  {
    if n == 0 then -1 else FindChar(buf, ',', Comma(buf, n - 1) + 1)
  }

  /** `buf.substr(pos + 1, temp_pos - pos - 1)` with `temp_pos = buf.find(",", pos + 1)` */
  function FieldAt(buf: seq<char>, pos: int): seq<char>
    requires -1 <= pos < |buf|
  {
    Substr(buf, pos + 1, FindChar(buf, ',', pos + 1) - pos - 1)
  }

  /** Field `i` of the sentence, as the field loops read it */
  function Field(buf: seq<char>, i: nat): seq<char> {
    FieldAt(buf, Comma(buf, i + 1))
  }

  /** The one character the RMC loop reads as the status */
  function StatusText(buf: seq<char>): seq<char> {
    Substr(buf, Comma(buf, 2) + 1, 1)
  }

  /** `stof` */
  function Stof(text: seq<char>): Conversion {
    match ParseFloat(text)
    case Some(v) => Converted(v)
    case None => Raised(InvalidArgument)
  }

  /** A latitude or longitude field: the text two characters before the '.' is
      degrees, the rest (the fraction included) is minutes. Degrees are
      converted first, from the whole field when there is no '.'; a '.' fewer
      than two characters from the front makes the second `substr` throw. */
  function Coordinate(text: seq<char>): Conversion {
    var dot := FindChar(text, '.', 0);
    match Stof(Substr(text, 0, dot - 2))
    case Raised(e) => Raised(e)
    case Converted(degrees) =>
      if dot - 2 < 0 then Raised(OutOfRange)
      else match Stof(text[dot - 2..])
        case Raised(e) => Raised(e)
        case Converted(minutes) => Converted(degrees + minutes / 60.0)
  }

  /** The course-over-ground latch, given RMC field 7. A non-empty field marks
      the course as seen before converting it. */
  function Latch(f: ParserState, text: seq<char>): Progress {
    if text != [] then
      var g := f.(isFirstCourseOverGround := false, isCourseOverGround := true);
      match Stof(text)
      case Raised(e) => Stopped(g, e)
      case Converted(v) => Running(g.(courseOverGround := v, prevCourseOverGround := v))
    else
      Running(f.(isCourseOverGround := false,
                 courseOverGround := if !f.isFirstCourseOverGround then f.prevCourseOverGround
                                     else f.courseOverGround))
  }

  /** The texts the RMC field loop reads: one character after the second comma
      for the status, then fields 2 to 5 and field 7 */
  datatype RmcFields = RmcFields(status: seq<char>, latitude: seq<char>, north: seq<char>,
                                 longitude: seq<char>, east: seq<char>, course: seq<char>)

  function RmcFieldsOf(buf: seq<char>): RmcFields {
    RmcFields(StatusText(buf), Field(buf, 2), Field(buf, 3), Field(buf, 4), Field(buf, 5), Field(buf, 7))
  }

  /** `t` holds the text iteration `i` of the RMC field loop reads from `buf` */
  predicate RmcReads(buf: seq<char>, t: RmcFields, i: nat) {
    var pos := Comma(buf, i + 1);
    if i == 1 then Substr(buf, pos + 1, 1) == t.status
    else if i == 2 then FieldAt(buf, pos) == t.latitude
    else if i == 3 then FieldAt(buf, pos) == t.north
    else if i == 4 then FieldAt(buf, pos) == t.longitude
    else if i == 5 then FieldAt(buf, pos) == t.east
    else if i == 7 then FieldAt(buf, pos) == t.course
    else true
  }

  /** The record of the RMC texts holds what each iteration reads. */
  lemma RmcFieldsRead(buf: seq<char>)
    ensures forall i :: RmcReads(buf, RmcFieldsOf(buf), i)
  {
  }

  /** The texts the VTG field loop reads: the heading and its reference */
  datatype VtgFields = VtgFields(heading: seq<char>, reference: seq<char>)

  function VtgFieldsOf(buf: seq<char>): VtgFields {
    VtgFields(Field(buf, 0), Field(buf, 1))
  }

  /** Iteration `i` of the RMC field loop */
  function RmcStep(f: ParserState, t: RmcFields, i: nat): Progress {
    if i == 1 then Running(f.(isStatus := t.status != "V"))
    else if i == 2 then
      match Coordinate(t.latitude)
      case Raised(e) => Stopped(f, e)
      case Converted(v) => Running(f.(latitude := v))
    else if i == 3 then Running(f.(isNorth := t.north == "N"))
    else if i == 4 then
      match Coordinate(t.longitude)
      case Raised(e) => Stopped(f, e)
      case Converted(v) => Running(f.(longitude := v))
    else if i == 5 then Running(f.(isEast := t.east == "E"))
    else if i == 7 then Latch(f, t.course)
    else Running(f)
  }

  /** The first `i` iterations of the RMC field loop; an exception ends the
      loop and later iterations leave the result as it was */
  function RmcLoop(f: ParserState, t: RmcFields, i: nat): Progress
  {
    if i == 0 then Running(f)
    else match RmcLoop(f, t, i - 1)
      case Stopped(g, e) => Stopped(g, e)
      case Running(g) => RmcStep(g, t, i - 1)
  }

  /** Iteration `i` of the VTG field loop. The heading flag is set after a
      conversion and then cleared whatever happened. */
  function VtgStep(f: ParserState, t: VtgFields, i: nat): Progress {
    if i == 0 then
      if t.heading != [] then
        match Stof(t.heading)
        case Raised(e) => Stopped(f, e)
        case Converted(v) => Running(f.(trueHeading := v, isTrueHeading := false))
      else Running(f.(isTrueHeading := false))
    else if i == 1 then Running(f.(isTrue := t.reference == "T"))
    else Running(f)
  }

  /** The first `i` iterations of the VTG field loop */
  function VtgLoop(f: ParserState, t: VtgFields, i: nat): Progress
  {
    if i == 0 then Running(f)
    else match VtgLoop(f, t, i - 1)
      case Stopped(g, e) => Stopped(g, e)
      case Running(g) => VtgStep(g, t, i - 1)
  }

  /** The RMC fields in closed form: the status, then the position, then the
      course latch */
  function DecodeRmc(f: ParserState, t: RmcFields): Progress {
    DecodePosition(f.(isStatus := t.status != "V"), t)
  }

  /** Latitude and its hemisphere, then the rest */
  function DecodePosition(f: ParserState, t: RmcFields): Progress {
    match Coordinate(t.latitude)
    case Raised(e) => Stopped(f, e)
    case Converted(lat) => DecodeLongitude(f.(latitude := lat, isNorth := t.north == "N"), t)
  }

  /** Longitude, its hemisphere and the course */
  function DecodeLongitude(f: ParserState, t: RmcFields): Progress {
    match Coordinate(t.longitude)
    case Raised(e) => Stopped(f, e)
    case Converted(lon) => Latch(f.(longitude := lon, isEast := t.east == "E"), t.course)
  }

  /** The VTG fields in closed form */
  function DecodeVtg(f: ParserState, t: VtgFields): Progress {
    if t.heading != [] then
      match Stof(t.heading)
      case Raised(e) => Stopped(f, e)
      case Converted(v) => Running(f.(trueHeading := v, isTrueHeading := false, isTrue := t.reference == "T"))
    else Running(f.(isTrueHeading := false, isTrue := t.reference == "T"))
  }

  /** The checksum the parser computes, as the `int` it compares */
  function ComputedChecksum(buf: seq<char>): int {
    SignedChar(ChecksumOf(buf))
  }

  /** `stoi(buf.substr(buf_size - 2), 0, 16)` */
  function ExpectedChecksum(buf: seq<char>): Option<int>
    requires |buf| >= 2
  {
    StoiHex(buf[|buf| - 2..])
  }

  /** The last two characters read as hexadecimal equal the computed checksum */
  predicate ChecksumMatches(buf: seq<char>) {
    |buf| >= 2 && ExpectedChecksum(buf) == Some(ComputedChecksum(buf))
  }

  /** The checksum comparison both kinds of sentence make before any field
      is read: `None` when the checksum matches, otherwise how the processing
      ends (`stoi` throws, or the flag is cleared and the method returns) */
  function Gate(f: ParserState, buf: seq<char>): Option<Processed>
    requires |buf| >= 2
  {
    match ExpectedChecksum(buf)
    case None => Some(Processed(f, Threw(InvalidArgument)))
    case Some(expected) =>
      if expected != ComputedChecksum(buf) then Some(Processed(f.(isChecksum := false), ChecksumMismatch))
      else None
  }

  /** The RMC branch of `nmeaProcess` after `isRMC_` is set */
  function ProcessRmc(f: ParserState, buf: seq<char>): Processed
    requires |buf| >= 2
  {
    match Gate(f, buf)
    case Some(r) => r
    case None => Finish(DecodeRmc(f.(isChecksum := true), RmcFieldsOf(buf)))
  }

  /** The VTG branch of `nmeaProcess` after `isVTG_` is set */
  function ProcessVtg(f: ParserState, buf: seq<char>): Processed
    requires |buf| >= 2
  {
    match Gate(f, buf)
    case Some(r) => r
    case None => Finish(DecodeVtg(f.(isChecksum := true), VtgFieldsOf(buf)))
  }

  /** The end of `nmeaProcess` after a field loop: all fields read, or an
      exception out of the loop */
  function Finish(p: Progress): Processed {
    match p
    case Running(h) => Processed(h, Decoded)
    case Stopped(h, e) => Processed(h, Threw(e))
  }

  /** `nmeaProcess(buf)` */
  function AfterProcess(f: ParserState, buf: seq<char>): Processed {
    if Contains(buf, "RMC") then ProcessRmc(f.(isRMC := true), buf)
    else if Contains(buf, "VTG") then ProcessVtg(f.(isVTG := true), buf)
    else Processed(f, Unrecognized)
  }

  /** The navigation fix the callback publishes */
  datatype Fix = Fix(hasFix: bool, latitude: real, longitude: real)

  /** What one callback publishes: a fix, a course, a heading log line */
  datatype Emitted = Emitted(fix: Option<Fix>, course: Option<real>, heading: Option<real>)

  const Nothing := Emitted(None, None, None)

  /** The fields after one call of `nmeaCallback`, what it published and how
      the processing of the sentence ended */
  datatype Dispatched = Dispatched(state: ParserState, emitted: Emitted, outcome: Outcome)

  /** A value published with the sign its hemisphere flag gives it */
  function Signed(v: real, positive: bool): real {
    if positive then v else -v
  }

  /** The part of `nmeaCallback` after `nmeaProcess`: publish from the flags
      and reset them. An exception from `nmeaProcess` leaves the callback
      before anything is published or reset. */
  function Publish(g: ParserState, outcome: Outcome): Dispatched {
    if outcome.Threw? then Dispatched(g, Nothing, outcome)
    else if g.isRMC && g.isChecksum then
      var fix := Fix(g.isStatus, Signed(g.latitude, g.isNorth), Signed(g.longitude, g.isEast));
      var course := if g.isCourseOverGround || !g.isFirstCourseOverGround
                    then Some(g.courseOverGround) else None;
      Dispatched(g.(isRMC := false, isChecksum := false, isStatus := false, isNorth := false,
                    isEast := false, isCourseOverGround := false),
                 Emitted(Some(fix), course, None), outcome)
    else if g.isVTG && g.isChecksum then
      var heading := if g.isTrueHeading && g.isTrue then Some(g.trueHeading) else None;
      Dispatched(g.(isVTG := false, isTrueHeading := false, isTrue := false),
                 Emitted(None, None, heading), outcome)
    else Dispatched(g, Nothing, outcome)
  }

  /** `nmeaCallback(sentence)`: the sentence is stored, processed, and the
      flags it left decide what is published */
  function AfterCallback(f: ParserState, sentence: seq<char>): Dispatched {
    var p := AfterProcess(f, sentence);
    Publish(p.state, p.outcome)
  }

  /** The fields after a callback for each sentence in turn */
  function Run(f: ParserState, sentences: seq<seq<char>>): ParserState
    decreases |sentences|
  {
    if sentences == [] then f
    else Run(AfterCallback(f, sentences[0]).state, sentences[1..])
  }

  /** Once an iteration has thrown, the loop's result no longer changes. */
  lemma {:induction false} RmcStaysStopped(f: ParserState, t: RmcFields, i: nat, j: nat)
    requires i <= j && RmcLoop(f, t, i).Stopped?
    ensures RmcLoop(f, t, j) == RmcLoop(f, t, i)
    decreases j - i
  {
    if i < j {
      RmcStaysStopped(f, t, i, j - 1);
    }
  }

  /** All eight iterations of the RMC field loop compute the closed form. */
  lemma RmcLoopIsDecodeRmc(f: ParserState, t: RmcFields)
    ensures RmcLoop(f, t, 8) == DecodeRmc(f, t)
  {
    var f1 := f.(isStatus := t.status != "V");
    assert RmcLoop(f, t, 1) == Running(f);
    assert RmcLoop(f, t, 2) == Running(f1);
    match Coordinate(t.latitude)
    case Raised(e) =>
      assert RmcLoop(f, t, 3) == Stopped(f1, e);
      RmcStaysStopped(f, t, 3, 8);
    case Converted(lat) =>
      var f3 := f1.(latitude := lat, isNorth := t.north == "N");
      assert RmcLoop(f, t, 3) == Running(f1.(latitude := lat));
      assert RmcLoop(f, t, 4) == Running(f3);
      RmcLoopDecodesLongitude(f, t, f3);
  }

  /** Iterations 4 to 7, from the state after the latitude hemisphere */
  lemma RmcLoopDecodesLongitude(f: ParserState, t: RmcFields, f3: ParserState)
    requires RmcLoop(f, t, 4) == Running(f3)
    ensures RmcLoop(f, t, 8) == DecodeLongitude(f3, t)
  {
    match Coordinate(t.longitude)
    case Raised(e) =>
      assert RmcLoop(f, t, 5) == Stopped(f3, e);
      RmcStaysStopped(f, t, 5, 8);
    case Converted(lon) =>
      var f5 := f3.(longitude := lon, isEast := t.east == "E");
      assert RmcLoop(f, t, 5) == Running(f3.(longitude := lon));
      assert RmcLoop(f, t, 6) == Running(f5);
      RmcLoopLatches(f, t, f5);
  }

  /** Iterations 6 and 7: nothing, then the course latch */
  lemma RmcLoopLatches(f: ParserState, t: RmcFields, f5: ParserState)
    requires RmcLoop(f, t, 6) == Running(f5)
    ensures RmcLoop(f, t, 8) == Latch(f5, t.course)
  {
    assert RmcLoop(f, t, 7) == Running(f5);
  }

  /** Both iterations of the VTG field loop compute the closed form. */
  lemma VtgLoopIsDecodeVtg(f: ParserState, t: VtgFields)
    ensures VtgLoop(f, t, 2) == DecodeVtg(f, t)
  {
    assert VtgLoop(f, t, 1) == VtgStep(f, t, 0);
    if t.heading != [] {
      match Stof(t.heading)
      case Raised(e) =>
        assert VtgLoop(f, t, 1) == Stopped(f, e);
      case Converted(v) =>
        assert VtgLoop(f, t, 1) == Running(f.(trueHeading := v, isTrueHeading := false));
    } else {
      assert VtgLoop(f, t, 1) == Running(f.(isTrueHeading := false));
    }
  }
}
