/**
 * The `NMEAParser` object: its private fields, `initSetup`, the checksum
 * routine, `nmeaProcess` and the decision and reset logic of `nmeaCallback`.
 * The publishers, the subscriber and the log output are left out; the
 * callback returns what it would publish.
 */
module Parser {
  import opened CppString
  import opened Checksum
  import opened Sentence

  class NmeaParser {
    var nmeaSentence: seq<char>
    var isRMC: bool
    var isVTG: bool
    var isChecksum: bool
    var isStatus: bool
    var latitude: real
    var isNorth: bool
    var longitude: real
    var isEast: bool
    var isCourseOverGround: bool
    var isFirstCourseOverGround: bool
    var prevCourseOverGround: real
    var courseOverGround: real
    var trueHeading: real
    var isTrueHeading: bool
    var isTrue: bool

    /** All the fields but the stored sentence as one value */
    function State(): ParserState
      reads this
    {
      ParserState(isRMC, isVTG, isChecksum, isStatus, latitude, isNorth,
                  longitude, isEast, isCourseOverGround, isFirstCourseOverGround,
                  prevCourseOverGround, courseOverGround, trueHeading, isTrueHeading, isTrue)
    }

    ghost predicate Valid()
      reads this
    {
      Consistent(State())
    }

    constructor ()
      ensures Valid()
      ensures State() == Initial() && nmeaSentence == []
    {
      nmeaSentence := [];
      new;
      InitSetup();
    }

    method InitSetup()
      modifies this
      ensures Valid()
      ensures State() == Initial() && nmeaSentence == old(nmeaSentence)
    {
      ClearFlags();
      ClearValues();
    }

    /** The flag assignments of `initSetup` */
    method ClearFlags()
      modifies this`isRMC, this`isVTG, this`isChecksum, this`isStatus, this`isNorth, this`isEast,
               this`isCourseOverGround, this`isFirstCourseOverGround, this`isTrueHeading, this`isTrue
      ensures !isRMC && !isVTG && !isChecksum && !isStatus && isNorth && isEast
      ensures !isCourseOverGround && isFirstCourseOverGround && !isTrueHeading && !isTrue
    {
      isRMC := false;
      isVTG := false;
      isChecksum := false;
      isStatus := false;
      isNorth := true;
      isEast := true;
      isCourseOverGround := false;
      isFirstCourseOverGround := true;
      isTrueHeading := false;
      isTrue := false;
    }

    /** The number assignments of `initSetup` */
    method ClearValues()
      modifies this`latitude, this`longitude, this`prevCourseOverGround, this`courseOverGround,
               this`trueHeading
      ensures latitude == 0.0 && longitude == 0.0 && prevCourseOverGround == 0.0
      ensures courseOverGround == 0.0 && trueHeading == 0.0
    {
      latitude := 0.0;
      longitude := 0.0;
      prevCourseOverGround := 0.0;
      courseOverGround := 0.0;
      trueHeading := 0.0;
    }

    /** `calcNMEAChecksum(buf, len)`: XOR of the characters of `buf[..len]`
        in front of the first '*', '$' excepted */
    static method CalcChecksum(buf: seq<char>, len: int) returns (checksum: int)
      requires 0 <= len <= |buf|
      ensures checksum == SignedChar(ChecksumOf(buf[..len]))
    {
      var acc: bv32 := 0;
      ghost var x: bv8 := 0;
      var i := 0;
      assert buf[..0] == [];
      while i < len
        invariant Scanned(buf, len, i, x) && acc == Widen(x)
      {
        acc, i, x := ScanCharacter(buf, len, i, acc, x);
        i := i + 1;
      }
      if i == len {
        NoStar(buf, len);
      }
      checksum := ToInt(acc, x);
    }

    /** The body of the checksum loop: the `switch` on one character. A '*'
        moves `i` to `len`, which ends the loop. */
    static method ScanCharacter(buf: seq<char>, len: int, i: int, acc: bv32, ghost x: bv8)
      returns (acc': bv32, i': int, ghost x': bv8)
      requires Scanned(buf, len, i, x) && acc == Widen(x) && i < len
      ensures i <= i' && Scanned(buf, len, i' + 1, x') && acc' == Widen(x')
    {
      var character := buf[i];
      acc', i', x' := acc, i, x;
      if character == '$' {
        DollarStep(buf, i);
      } else if character == '*' {
        StarEnds(buf, len, i);
        i' := len;
      } else {
        acc', x' := Absorb(buf, len, i, acc, x);
      }
    }

    /** The `default:` case: the character is XOR-ed into the accumulator. */
    static method Absorb(buf: seq<char>, len: int, i: int, acc: bv32, ghost x: bv8)
      returns (acc': bv32, ghost x': bv8)
      requires Scanned(buf, len, i, x) && acc == Widen(x) && i < len
      requires buf[i] != '$' && buf[i] != '*'
      ensures Scanned(buf, len, i + 1, x') && acc' == Widen(x')
    {
      CharStep(buf, i);
      x' := Xor(Strip(buf[..i + 1]));
      acc' := Accumulate(acc, buf[i], x, x');
    }

    /** `return checksum`: the `int` the accumulator holds is the signed
        character its low byte denotes */
    static method ToInt(acc: bv32, ghost x: bv8) returns (checksum: int)
      requires acc == Widen(x)
      ensures checksum == SignedChar(x)
    {
      WidenValue(x);
      checksum := SignedInt(acc);
    }

    /** The `default:` branch of the checksum loop: the `int` accumulator,
        which always holds a sign-extended byte, absorbs the sign-extended
        character and again holds a sign-extended byte, the first character
        (accumulator 0) included. */
    static method Accumulate(checksum: bv32, character: char, ghost x: bv8, ghost y: bv8) returns (r: bv32)
      requires checksum == Widen(x) && y == x ^ Byte(character)
      ensures r == Widen(y)
    {
      AccumulateStep(checksum, x, Byte(character));
      if checksum == 0 {
        r := Widen(Byte(character));
      } else {
        r := checksum ^ Widen(Byte(character));
      }
    }

    /** `nmeaProcess(buf)`: an RMC sentence is recognised first, a VTG
        sentence only when the text "RMC" does not occur */
    method Process(buf: seq<char>) returns (outcome: Outcome)
      requires Valid()
      modifies this
      ensures nmeaSentence == old(nmeaSentence)
      ensures Valid()
      ensures Processed(State(), outcome) == AfterProcess(old(State()), buf)
    {
      if Contains(buf, "RMC") {
        isRMC := true;
        outcome := CheckAndReadRmc(buf);
      } else if Contains(buf, "VTG") {
        isVTG := true;
        outcome := CheckAndReadVtg(buf);
      } else {
        outcome := Unrecognized;
      }
    }

    /** The checksum comparison both branches of `nmeaProcess` make: `None`
        when the checksum matches and the flag is set */
    method CheckChecksum(buf: seq<char>) returns (stop: Option<Outcome>)
      requires Valid() && |buf| >= 2
      modifies this`isChecksum
      ensures Valid()
      ensures Gate(old(State()), buf) == if stop.Some? then Some(Processed(State(), stop.value)) else None
      ensures stop.None? ==> isChecksum
    {
      var checksum := buf[|buf| - 2..];
      var checksumBuf := StoiHex(checksum);
      if checksumBuf.None? {
        return Some(Threw(InvalidArgument));
      }
      var checksumResult := CalcChecksum(buf, |buf|);
      assert buf[..|buf|] == buf;
      if checksumBuf.value == checksumResult {
        isChecksum := true;
        stop := None;
      } else {
        isChecksum := false;
        stop := Some(ChecksumMismatch);
      }
    }

    /** The RMC branch of `nmeaProcess` after `isRMC_` is set */
    method CheckAndReadRmc(buf: seq<char>) returns (outcome: Outcome)
      requires Valid() && |buf| >= 2
      modifies this
      ensures nmeaSentence == old(nmeaSentence)
      ensures Valid()
      ensures Processed(State(), outcome) == ProcessRmc(old(State()), buf)
    {
      var stop := CheckChecksum(buf);
      if stop.Some? {
        return stop.value;
      }
      RmcLoopIsDecodeRmc(State(), RmcFieldsOf(buf));
      RmcFieldsRead(buf);
      outcome := ReadRmc(buf, RmcFieldsOf(buf));
    }

    /** The VTG branch of `nmeaProcess` after `isVTG_` is set */
    method CheckAndReadVtg(buf: seq<char>) returns (outcome: Outcome)
      requires Valid() && |buf| >= 2
      modifies this
      ensures nmeaSentence == old(nmeaSentence)
      ensures Valid()
      ensures Processed(State(), outcome) == ProcessVtg(old(State()), buf)
    {
      var stop := CheckChecksum(buf);
      if stop.Some? {
        return stop.value;
      }
      VtgLoopIsDecodeVtg(State(), VtgFieldsOf(buf));
      outcome := ReadVtg(buf);
    }

    /** The RMC field loop */
    method ReadRmc(buf: seq<char>, ghost t: RmcFields) returns (outcome: Outcome)
      requires Valid() && forall i :: RmcReads(buf, t, i)
      modifies this
      ensures nmeaSentence == old(nmeaSentence)
      ensures Valid()
      ensures Processed(State(), outcome) == Finish(RmcLoop(old(State()), t, 8))
    {
      ghost var start := State();
      var pos := -1;
      var i := 0;
      while i < 8
        invariant 0 <= i <= 8
        invariant pos == Comma(buf, i)
        invariant Valid()
        invariant nmeaSentence == old(nmeaSentence)
        invariant RmcLoop(start, t, i) == Running(State())
      {
        pos := FindChar(buf, ',', pos + 1);
        assert pos == Comma(buf, i + 1);
        var fault := ReadRmcField(buf, pos, i, t);
        assert RmcLoop(start, t, i + 1) == Resume(State(), fault);
        if fault.Some? {
          RmcStaysStopped(start, t, i + 1, 8);
          return Threw(fault.value);
        }
        i := i + 1;
      }
      return Decoded;
    }

    /** One iteration of the RMC field loop: the `if` chain on `i`, given the
        position of the comma in front of field `i` */
    method ReadRmcField(buf: seq<char>, pos: int, i: nat, ghost t: RmcFields) returns (fault: Option<Fault>)
      requires Valid() && RmcReads(buf, t, i) && pos == Comma(buf, i + 1)
      modifies this
      ensures nmeaSentence == old(nmeaSentence)
      ensures Valid()
      ensures Resume(State(), fault) == RmcStep(old(State()), t, i)
    {
      fault := None;
      if i == 1 {
        ReadStatus(buf, pos, t);
      } else if i == 2 {
        fault := ReadLatitude(buf, pos, t);
      } else if i == 3 {
        ReadNorth(buf, pos, t);
      } else if i == 4 {
        fault := ReadLongitude(buf, pos, t);
      } else if i == 5 {
        ReadEast(buf, pos, t);
      } else if i == 7 {
        fault := ReadCourse(buf, pos, t);
      }
    }

    /** Iteration 1: the status character after the second comma */
    method ReadStatus(buf: seq<char>, pos: int, ghost t: RmcFields)
      requires Valid() && -1 <= pos < |buf| && Substr(buf, pos + 1, 1) == t.status
      modifies this
      ensures nmeaSentence == old(nmeaSentence)
      ensures Valid()
      ensures Running(State()) == RmcStep(old(State()), t, 1)
    {
      var status := Substr(buf, pos + 1, 1);
      if status == "V" {
        isStatus := false;
      } else {
        isStatus := true;
      }
    }

    /** Iteration 2: the latitude */
    method ReadLatitude(buf: seq<char>, pos: int, ghost t: RmcFields) returns (fault: Option<Fault>)
      requires Valid() && -1 <= pos < |buf| && FieldAt(buf, pos) == t.latitude
      modifies this
      ensures nmeaSentence == old(nmeaSentence)
      ensures Valid()
      ensures Resume(State(), fault) == RmcStep(old(State()), t, 2)
    {
      var tempPos := FindChar(buf, ',', pos + 1);
      var lat := Substr(buf, pos + 1, tempPos - pos - 1);
      assert lat == t.latitude;
      var c := ReadCoordinate(lat);
      if c.Raised? {
        return Some(c.fault);
      }
      latitude := c.value;
      return None;
    }

    /** Iteration 3: the latitude hemisphere */
    method ReadNorth(buf: seq<char>, pos: int, ghost t: RmcFields)
      requires Valid() && -1 <= pos < |buf| && FieldAt(buf, pos) == t.north
      modifies this
      ensures nmeaSentence == old(nmeaSentence)
      ensures Valid()
      ensures Running(State()) == RmcStep(old(State()), t, 3)
    {
      var tempPos := FindChar(buf, ',', pos + 1);
      if Substr(buf, pos + 1, tempPos - pos - 1) == "N" {
        isNorth := true;
      } else {
        isNorth := false;
      }
    }

    /** Iteration 4: the longitude */
    method ReadLongitude(buf: seq<char>, pos: int, ghost t: RmcFields) returns (fault: Option<Fault>)
      requires Valid() && -1 <= pos < |buf| && FieldAt(buf, pos) == t.longitude
      modifies this
      ensures nmeaSentence == old(nmeaSentence)
      ensures Valid()
      ensures Resume(State(), fault) == RmcStep(old(State()), t, 4)
    {
      var tempPos := FindChar(buf, ',', pos + 1);
      var lon := Substr(buf, pos + 1, tempPos - pos - 1);
      assert lon == t.longitude;
      var c := ReadCoordinate(lon);
      if c.Raised? {
        return Some(c.fault);
      }
      longitude := c.value;
      return None;
    }

    /** Iteration 5: the longitude hemisphere */
    method ReadEast(buf: seq<char>, pos: int, ghost t: RmcFields)
      requires Valid() && -1 <= pos < |buf| && FieldAt(buf, pos) == t.east
      modifies this
      ensures nmeaSentence == old(nmeaSentence)
      ensures Valid()
      ensures Running(State()) == RmcStep(old(State()), t, 5)
    {
      var tempPos := FindChar(buf, ',', pos + 1);
      if Substr(buf, pos + 1, tempPos - pos - 1) == "E" {
        isEast := true;
      } else {
        isEast := false;
      }
    }

    /** Iteration 7: the course over ground and its latch */
    method ReadCourse(buf: seq<char>, pos: int, ghost t: RmcFields) returns (fault: Option<Fault>)
      requires Valid() && -1 <= pos < |buf| && FieldAt(buf, pos) == t.course
      modifies this
      ensures nmeaSentence == old(nmeaSentence)
      ensures Valid()
      ensures Resume(State(), fault) == RmcStep(old(State()), t, 7)
    {
      var tempPos := FindChar(buf, ',', pos + 1);
      var course := Substr(buf, pos + 1, tempPos - pos - 1);
      assert course == t.course;
      if course != [] {
        isFirstCourseOverGround := false;
        isCourseOverGround := true;
        var value := ParseFloat(course);
        if value.None? {
          return Some(InvalidArgument);
        }
        courseOverGround := value.value;
        prevCourseOverGround := courseOverGround;
      } else {
        isCourseOverGround := false;
        if !isFirstCourseOverGround {
          courseOverGround := prevCourseOverGround;
        }
      }
      return None;
    }

    /** `deg + min / 60.0` from a latitude or longitude field, with the
        exceptions its `substr` and `stof` calls raise */
    static method ReadCoordinate(text: seq<char>) returns (c: Conversion)
      ensures c == Coordinate(text)
    {
      var dotPos := FindChar(text, '.', 0);
      var deg := ParseFloat(Substr(text, 0, dotPos - 2));
      if deg.None? {
        return Raised(InvalidArgument);
      }
      if dotPos - 2 < 0 {
        return Raised(OutOfRange);
      }
      var min := ParseFloat(text[dotPos - 2..]);
      if min.None? {
        return Raised(InvalidArgument);
      }
      return Converted(deg.value + min.value / 60.0);
    }

    /** The VTG field loop */
    method ReadVtg(buf: seq<char>) returns (outcome: Outcome)
      requires Valid()
      modifies this
      ensures nmeaSentence == old(nmeaSentence)
      ensures Valid()
      ensures Processed(State(), outcome) == Finish(VtgLoop(old(State()), VtgFieldsOf(buf), 2))
    {
      ghost var t := VtgFieldsOf(buf);
      ghost var start := State();
      var pos := -1;
      var i := 0;
      while i < 2
        invariant 0 <= i <= 2
        invariant pos == Comma(buf, i)
        invariant Valid()
        invariant nmeaSentence == old(nmeaSentence)
        invariant VtgLoop(start, t, i) == Running(State())
      {
        pos := FindChar(buf, ',', pos + 1);
        assert pos == Comma(buf, i + 1);
        assert FieldAt(buf, pos) == Field(buf, i);
        var fault := None;
        if i == 0 {
          fault := ReadHeading(buf, pos, t);
        }
        if i == 1 {
          ReadReference(buf, pos, t);
        }
        assert VtgLoop(start, t, i + 1) == Resume(State(), fault);
        if fault.Some? {
          if i == 0 {
            assert VtgLoop(start, t, 2) == VtgLoop(start, t, 1);
          }
          return Threw(fault.value);
        }
        i := i + 1;
      }
      return Decoded;
    }

    /** Iteration 0: the heading, whose flag is cleared right after it is set */
    method ReadHeading(buf: seq<char>, pos: int, ghost t: VtgFields) returns (fault: Option<Fault>)
      requires Valid() && -1 <= pos < |buf| && FieldAt(buf, pos) == t.heading
      modifies this
      ensures nmeaSentence == old(nmeaSentence)
      ensures Valid()
      ensures Resume(State(), fault) == VtgStep(old(State()), t, 0)
    {
      var tempPos := FindChar(buf, ',', pos + 1);
      var heading := Substr(buf, pos + 1, tempPos - pos - 1);
      assert heading == t.heading;
      if heading != [] {
        var value := ParseFloat(heading);
        if value.None? {
          return Some(InvalidArgument);
        }
        trueHeading := value.value;
        isTrueHeading := true;
      }
      isTrueHeading := false;
      return None;
    }

    /** Iteration 1: the heading reference */
    method ReadReference(buf: seq<char>, pos: int, ghost t: VtgFields)
      requires Valid() && -1 <= pos < |buf| && FieldAt(buf, pos) == t.reference
      modifies this
      ensures nmeaSentence == old(nmeaSentence)
      ensures Valid()
      ensures Running(State()) == VtgStep(old(State()), t, 1)
    {
      var tempPos := FindChar(buf, ',', pos + 1);
      if Substr(buf, pos + 1, tempPos - pos - 1) == "T" {
        isTrue := true;
      } else {
        isTrue := false;
      }
    }

    /** `nmeaCallback`: process the sentence, then publish from the flags and
        reset them */
    method Callback(sentence: seq<char>) returns (emitted: Emitted, outcome: Outcome)
      requires Valid()
      modifies this
      ensures Valid()
      ensures nmeaSentence == sentence
      ensures Dispatched(State(), emitted, outcome) == AfterCallback(old(State()), sentence)
    {
      nmeaSentence := sentence;
      outcome := Process(nmeaSentence);
      emitted := PublishFlags(outcome);
    }

    /** The `if` on the flags at the end of `nmeaCallback`; an exception out of
        `nmeaProcess` never reaches it */
    method PublishFlags(outcome: Outcome) returns (emitted: Emitted)
      requires Valid()
      modifies this
      ensures nmeaSentence == old(nmeaSentence)
      ensures Valid()
      ensures Dispatched(State(), emitted, outcome) == Publish(old(State()), outcome)
    {
      emitted := Nothing;
      if outcome.Threw? {
        return;
      }
      if isRMC && isChecksum {
        emitted := PublishFix(outcome);
      } else if isVTG && isChecksum {
        emitted := LogHeading(outcome);
      }
    }

    /** A checked RMC sentence: publish the fix, and the course once one has
        been seen, then clear the RMC flags */
    method PublishFix(outcome: Outcome) returns (emitted: Emitted)
      requires Valid() && !outcome.Threw? && isRMC && isChecksum
      modifies this
      ensures nmeaSentence == old(nmeaSentence)
      ensures Valid()
      ensures Dispatched(State(), emitted, outcome) == Publish(old(State()), outcome)
    {
      var course := None;
      if isCourseOverGround || !isFirstCourseOverGround {
        course := Some(courseOverGround);
      }
      var fix := Fix(isStatus, if isNorth then latitude else -latitude,
                     if isEast then longitude else -longitude);
      emitted := Emitted(Some(fix), course, None);
      isRMC := false;
      isChecksum := false;
      isStatus := false;
      isNorth := false;
      isEast := false;
      isCourseOverGround := false;
    }

    /** A checked VTG sentence: log the heading when both its flags are set,
        then clear the VTG flags */
    method LogHeading(outcome: Outcome) returns (emitted: Emitted)
      requires Valid() && !outcome.Threw? && !(isRMC && isChecksum) && isVTG && isChecksum
      modifies this
      ensures nmeaSentence == old(nmeaSentence)
      ensures Valid()
      ensures Dispatched(State(), emitted, outcome) == Publish(old(State()), outcome)
    {
      emitted := Nothing;
      if isTrueHeading && isTrue {
        emitted := Emitted(None, None, Some(trueHeading));
      }
      isVTG := false;
      isTrueHeading := false;
      isTrue := false;
    }
  }

  /** What the checksum loop knows once `i` is past `buf[..i]`: no '*' yet
      and `x` is the XOR so far, or a '*' was met and `x` is the whole
      checksum */
  ghost predicate Scanned(buf: seq<char>, len: int, i: int, x: bv8) {
    0 <= len <= |buf| && 0 <= i <= len + 1 &&
    (i <= len ==> '*' !in buf[..i] && x == Xor(Strip(buf[..i]))) &&
    (i == len + 1 ==> x == ChecksumOf(buf[..len]))
  }

  /** A '$' adds nothing to the checksum. */
  lemma DollarStep(buf: seq<char>, i: nat)
    requires i < |buf| && buf[i] == '$'
    ensures Strip(buf[..i + 1]) == Strip(buf[..i])
    ensures '*' !in buf[..i] ==> '*' !in buf[..i + 1]
  {
    assert buf[..i + 1] == buf[..i] + [buf[i]];
    assert Strip(buf[..i]) + [] == Strip(buf[..i]);
  }

  /** Any other character before the first '*' is XOR-ed in. */
  lemma CharStep(buf: seq<char>, i: nat)
    requires i < |buf| && buf[i] != '$' && buf[i] != '*'
    ensures Xor(Strip(buf[..i + 1])) == Xor(Strip(buf[..i])) ^ Byte(buf[i])
    ensures '*' !in buf[..i] ==> '*' !in buf[..i + 1]
  {
    var s := Strip(buf[..i]);
    assert buf[..i + 1] == buf[..i] + [buf[i]];
    assert buf[..i + 1][..i] == buf[..i];
    assert Strip(buf[..i + 1]) == s + [buf[i]];
    assert (s + [buf[i]])[..|s|] == s;
  }

  /** One step of the accumulator, the `checksum == 0` case included: a
      sign-extended byte XOR-ed with a sign-extended character */
  lemma AccumulateStep(acc: bv32, x: bv8, b: bv8)
    requires acc == Widen(x)
    ensures (if acc == 0 then Widen(b) else acc ^ Widen(b)) == Widen(x ^ b)
  {
    WidenZero(x);
    if x == 0 {
      assert x ^ b == b;
    } else {
      WidenXor(acc, x, b);
    }
  }

  /** The first '*' ends the checksum. */
  lemma StarEnds(buf: seq<char>, n: nat, i: nat)
    requires i < n <= |buf| && buf[i] == '*' && '*' !in buf[..i]
    ensures ChecksumOf(buf[..n]) == Xor(Strip(buf[..i]))
  {
    var s := buf[..n];
    assert s == buf[..i] + s[i..];
    BeforeStarConcat(buf[..i], s[i..]);
    assert BeforeStar(s[i..]) == [];
    assert buf[..i] + [] == buf[..i];
  }

  /** Without a '*' every character counts, '$' excepted. */
  lemma NoStar(buf: seq<char>, n: nat)
    requires n <= |buf| && '*' !in buf[..n]
    ensures ChecksumOf(buf[..n]) == Xor(Strip(buf[..n]))
  {
    BeforeStarConcat(buf[..n], []);
    assert buf[..n] + [] == buf[..n];
  }
}
