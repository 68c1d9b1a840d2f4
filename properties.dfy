/**
 * Properties of the parser's behaviour: where the field loops find each
 * field, how a sentence is classified and checked, what the RMC and VTG
 * fields set, what the callback publishes and resets, and how the
 * course-over-ground latch evolves over a stream of sentences.
 */
module Properties {
  import opened CppString
  import opened Checksum
  import opened Sentence

  /** A sentence written as its fields separated by commas, starting with
      the address field (`$GPRMC`, `$GPVTG`) */
  function Join(fs: seq<seq<char>>): seq<char>
    requires |fs| > 0
  {
    if |fs| == 1 then fs[0] else fs[0] + [','] + Join(fs[1..])
  }

  /** The index at which field `k` of `Join(fs)` starts */
  function Start(fs: seq<seq<char>>, k: nat): nat
    requires k < |fs|
  {
    if k == 0 then 0 else |fs[0]| + 1 + Start(fs[1..], k - 1)
  }

  predicate CommaFree(fs: seq<seq<char>>) {
    forall k :: 0 <= k < |fs| ==> ',' !in fs[k]
  }

  /** The lengths of the joined sentence and the comma after each field but
      the last */
  lemma {:induction false} JoinShape(fs: seq<seq<char>>, k: nat)
    requires k < |fs|
    ensures k + 1 < |fs| ==> Start(fs, k) + |fs[k]| < |Join(fs)|
    ensures k + 1 < |fs| ==> Join(fs)[Start(fs, k) + |fs[k]|] == ','
    ensures k + 1 < |fs| ==> Start(fs, k + 1) == Start(fs, k) + |fs[k]| + 1
    ensures k + 1 == |fs| ==> |Join(fs)| == Start(fs, k) + |fs[k]|
  {
    if |fs| > 1 {
      var rest := fs[1..];
      assert Join(fs) == fs[0] + [','] + Join(rest);
      if k > 0 {
        JoinShape(rest, k - 1);
        assert rest[k - 1] == fs[k];
      }
    }
  }

  /** Character `j` of the joined sentence, inside field `k` */
  lemma {:induction false} JoinAt(fs: seq<seq<char>>, k: nat, j: nat)
    requires k < |fs| && Start(fs, k) <= j < Start(fs, k) + |fs[k]|
    ensures j < |Join(fs)| && Join(fs)[j] == fs[k][j - Start(fs, k)]
  {
    if |fs| > 1 {
      var rest := fs[1..];
      assert Join(fs) == fs[0] + [','] + Join(rest);
      if k > 0 {
        JoinAt(rest, k - 1, j - |fs[0]| - 1);
        assert rest[k - 1] == fs[k];
      }
    }
  }

  /** The characters of field `k` are not commas. */
  lemma FieldChars(fs: seq<seq<char>>, k: nat, j: nat)
    requires CommaFree(fs) && k < |fs|
    requires Start(fs, k) <= j < Start(fs, k) + |fs[k]|
    ensures j < |Join(fs)| && Join(fs)[j] != ','
  {
    JoinAt(fs, k, j);
  }

  /** A search that starts at `a`, where the `len` characters up to the next
      comma or the end hold no comma, stops at that comma or gives -1. */
  lemma CommaAfter(buf: seq<char>, a: nat, len: nat)
    requires a + len <= |buf|
    requires forall j :: a <= j < a + len ==> buf[j] != ','
    requires a + len == |buf| || buf[a + len] == ','
    ensures FindChar(buf, ',', a) == if a + len == |buf| then -1 else a + len
  {
    if a + len == |buf| {
      FindCharNone(buf, ',', a);
    } else {
      FindCharAt(buf, ',', a, a + len);
    }
  }

  /** The field read after comma search `i + 1` ended at `a - 1` is the text
      from `a` up to the next comma or the end. */
  lemma FieldBetween(buf: seq<char>, i: nat, a: nat, len: nat)
    requires Comma(buf, i + 1) == a - 1
    requires a + len <= |buf|
    requires forall j :: a <= j < a + len ==> buf[j] != ','
    requires a + len == |buf| || buf[a + len] == ','
    ensures Field(buf, i) == buf[a..a + len]
  {
    FieldAfter(buf, a, len);
  }

  /** The text read after a comma at `a - 1` (or from the start, for `a` 0) */
  lemma FieldAfter(buf: seq<char>, a: nat, len: nat)
    requires a + len <= |buf|
    requires forall j :: a <= j < a + len ==> buf[j] != ','
    requires a + len == |buf| || buf[a + len] == ','
    ensures FieldAt(buf, a - 1) == buf[a..a + len]
  {
    CommaAfter(buf, a, len);
    var e := FindChar(buf, ',', a);
    assert FieldAt(buf, a - 1) == Substr(buf, a, e - a);
    SubstrSlice(buf, a, e - a);
    if e == -1 {
      assert a + len == |buf|;
    } else {
      assert e - a == len;
    }
  }

  /** The n-th search for a comma finds the comma before field n. */
  lemma {:induction false} CommaOfJoin(fs: seq<seq<char>>, n: nat)
    requires CommaFree(fs) && 1 <= n < |fs|
    ensures Comma(Join(fs), n) == Start(fs, n) - 1
  {
    var buf := Join(fs);
    var a := Start(fs, n - 1);
    if n > 1 {
      CommaOfJoin(fs, n - 1);
    }
    assert Comma(buf, n) == FindChar(buf, ',', a);
    JoinShape(fs, n - 1);
    forall j | a <= j < a + |fs[n - 1]|
      ensures buf[j] != ','
    {
      FieldChars(fs, n - 1, j);
    }
    CommaAfter(buf, a, |fs[n - 1]|);
  }

  /** The text `t` starts at `a`, right after comma search `i + 1`, and runs
      up to the next comma or the end. */
  predicate FieldLaid(buf: seq<char>, i: nat, a: nat, t: seq<char>) {
    && Comma(buf, i + 1) == a - 1
    && a + |t| <= |buf| && ',' !in t
    && (forall j :: a <= j < a + |t| ==> buf[j] == t[j - a])
    && (a + |t| == |buf| || buf[a + |t|] == ',')
  }

  /** A field laid out that way is what the loops read. */
  lemma FieldIs(buf: seq<char>, i: nat, a: nat, t: seq<char>)
    requires FieldLaid(buf, i, a, t)
    ensures Field(buf, i) == t
  {
    forall j | a <= j < a + |t|
      ensures buf[j] != ','
    {
      assert buf[j] == t[j - a];
    }
    FieldBetween(buf, i, a, |t|);
    assert buf[a..a + |t|] == t;
  }

  /** Every field of a joined sentence but the address is laid out that way. */
  lemma JoinLaid(fs: seq<seq<char>>, i: nat)
    requires CommaFree(fs) && i + 1 < |fs|
    ensures FieldLaid(Join(fs), i, Start(fs, i + 1), fs[i + 1])
  {
    var a := Start(fs, i + 1);
    CommaOfJoin(fs, i + 1);
    JoinShape(fs, i + 1);
    forall j | a <= j < a + |fs[i + 1]|
      ensures Join(fs)[j] == fs[i + 1][j - a]
    {
      JoinAt(fs, i + 1, j);
    }
  }

  /** Field `i` as the loops read it is the text after the (i+1)-th comma:
      field `i + 1` of the sentence counting the address field as 0. */
  lemma FieldOfJoin(fs: seq<seq<char>>, i: nat)
    requires CommaFree(fs) && i + 1 < |fs|
    ensures Field(Join(fs), i) == fs[i + 1]
  {
    JoinLaid(fs, i);
    FieldIs(Join(fs), i, Start(fs, i + 1), fs[i + 1]);
  }

  /** The RMC status is the one character after the second comma, so it reads
      "V" exactly when field 1 starts with 'V'. */
  lemma StatusIsFirstCharacter(buf: seq<char>)
    ensures StatusText(buf) == "V" <==> Field(buf, 1) != [] && Field(buf, 1)[0] == 'V'
  {
    var a := Comma(buf, 2) + 1;
    var e := FindChar(buf, ',', a);
    var status := Substr(buf, a, 1);
    var field := Substr(buf, a, e - a);
    assert StatusText(buf) == status && Field(buf, 1) == field;
    SubstrSlice(buf, a, 1);
    SubstrSlice(buf, a, e - a);
    if a == |buf| {
      assert status == [] && field == [];
    } else if e == a {
      assert status == [','] && field == [];
    } else {
      assert status == [buf[a]] && field[0] == buf[a];
    }
  }

  /** `f` and `g` agree on the kind flags */
  predicate SameKind(f: ParserState, g: ParserState) {
    g.isRMC == f.isRMC && g.isVTG == f.isVTG
  }

  /** `f` and `g` agree on the fields the RMC field loop writes */
  predicate SameRmcFields(f: ParserState, g: ParserState) {
    g.isStatus == f.isStatus && g.latitude == f.latitude && g.isNorth == f.isNorth &&
    g.longitude == f.longitude && g.isEast == f.isEast &&
    g.isCourseOverGround == f.isCourseOverGround &&
    g.isFirstCourseOverGround == f.isFirstCourseOverGround &&
    g.prevCourseOverGround == f.prevCourseOverGround && g.courseOverGround == f.courseOverGround
  }

  /** `f` and `g` agree on the fields the VTG field loop writes */
  predicate SameVtgFields(f: ParserState, g: ParserState) {
    g.trueHeading == f.trueHeading && g.isTrueHeading == f.isTrueHeading && g.isTrue == f.isTrue
  }

  /** The RMC field loop writes only its own fields. */
  lemma DecodeRmcFrame(f: ParserState, t: RmcFields)
    ensures var g := DecodeRmc(f, t).state;
      SameKind(f, g) && g.isChecksum == f.isChecksum && SameVtgFields(f, g)
  {
    var f1 := f.(isStatus := t.status != "V");
    match Coordinate(t.latitude)
    case Raised(e) =>
    case Converted(lat) =>
      var f2 := f1.(latitude := lat, isNorth := t.north == "N");
      match Coordinate(t.longitude)
      case Raised(e) =>
      case Converted(lon) =>
        var f3 := f2.(longitude := lon, isEast := t.east == "E");
        if t.course != [] {
          match Stof(t.course)
          case Raised(e) =>
          case Converted(v) =>
        }
  }

  /** The VTG field loop writes only its own fields. */
  lemma DecodeVtgFrame(f: ParserState, t: VtgFields)
    ensures var g := DecodeVtg(f, t).state;
      SameKind(f, g) && g.isChecksum == f.isChecksum && SameRmcFields(f, g)
  {
    if t.heading != [] {
      match Stof(t.heading)
      case Raised(e) =>
      case Converted(v) =>
    }
  }

  /** The checksum comparison writes only the checksum flag. */
  lemma GateFrame(f: ParserState, buf: seq<char>)
    requires |buf| >= 2
    ensures Gate(f, buf).Some? ==> var g := Gate(f, buf).value.state;
      SameKind(f, g) && SameRmcFields(f, g) && SameVtgFields(f, g) && !g.isChecksum == (Gate(f, buf).value.outcome == ChecksumMismatch || !f.isChecksum)
  {
  }

  /** The RMC branch writes only the checksum flag and the RMC fields. */
  lemma ProcessRmcFrame(f: ParserState, buf: seq<char>)
    requires |buf| >= 2
    ensures SameKind(f, ProcessRmc(f, buf).state) && SameVtgFields(f, ProcessRmc(f, buf).state)
  {
    match Gate(f, buf)
    case Some(r) => GateFrame(f, buf);
    case None => DecodeRmcFrame(f.(isChecksum := true), RmcFieldsOf(buf));
  }

  /** The VTG branch writes only the checksum flag and the VTG fields. */
  lemma ProcessVtgFrame(f: ParserState, buf: seq<char>)
    requires |buf| >= 2
    ensures SameKind(f, ProcessVtg(f, buf).state) && SameRmcFields(f, ProcessVtg(f, buf).state)
  {
    match Gate(f, buf)
    case Some(r) => GateFrame(f, buf);
    case None => DecodeVtgFrame(f.(isChecksum := true), VtgFieldsOf(buf));
  }

  /** A sentence holding "RMC" anywhere takes the RMC path, even when it also
      holds "VTG": it sets the RMC flag and leaves the VTG flag and the VTG
      fields alone. */
  lemma RmcPrecedence(f: ParserState, buf: seq<char>)
    requires Contains(buf, "RMC")
    ensures var g := AfterProcess(f, buf).state;
      g.isRMC && g.isVTG == f.isVTG && SameVtgFields(f, g)
  {
    ProcessRmcFrame(f.(isRMC := true), buf);
  }

  /** The VTG path is taken only without "RMC": it sets the VTG flag and
      leaves the RMC flag and the RMC fields alone. */
  lemma VtgPath(f: ParserState, buf: seq<char>)
    requires !Contains(buf, "RMC") && Contains(buf, "VTG")
    ensures var g := AfterProcess(f, buf).state;
      g.isVTG && g.isRMC == f.isRMC && SameRmcFields(f, g)
  {
    ProcessVtgFrame(f.(isVTG := true), buf);
  }

  /** A sentence holding neither "RMC" nor "VTG" changes no field. */
  lemma UnrecognizedUnchanged(f: ParserState, buf: seq<char>)
    requires !Contains(buf, "RMC") && !Contains(buf, "VTG")
    ensures AfterProcess(f, buf) == Processed(f, Unrecognized)
  {
  }

  /** A sentence the parser recognizes */
  predicate Recognized(buf: seq<char>) {
    Contains(buf, "RMC") || Contains(buf, "VTG")
  }

  /** A recognized sentence has room for the two checksum characters. */
  lemma RecognizedLength(buf: seq<char>)
    requires Recognized(buf)
    ensures |buf| >= 3
  {
  }

  /** The fields once the kind flag of a recognized sentence is set */
  function Classified(f: ParserState, buf: seq<char>): ParserState {
    if Contains(buf, "RMC") then f.(isRMC := true) else f.(isVTG := true)
  }

  /** When the last two characters are not hexadecimal, `stoi` throws after
      the kind flag is set and before anything else changes. */
  lemma UnreadableChecksum(f: ParserState, buf: seq<char>)
    requires Recognized(buf)
    requires |buf| >= 2 && ExpectedChecksum(buf).None?
    ensures AfterProcess(f, buf) == Processed(Classified(f, buf), Threw(InvalidArgument))
  {
  }

  /** A checksum mismatch clears the checksum flag and returns before any
      field is read. */
  lemma MismatchReadsNothing(f: ParserState, buf: seq<char>)
    requires Recognized(buf)
    requires |buf| >= 2 && ExpectedChecksum(buf).Some? && !ChecksumMatches(buf)
    ensures AfterProcess(f, buf) == Processed(Classified(f, buf).(isChecksum := false), ChecksumMismatch)
  {
    var c := Classified(f, buf);
    assert Gate(c, buf) == Some(Processed(c.(isChecksum := false), ChecksumMismatch));
    if Contains(buf, "RMC") {
      assert AfterProcess(f, buf) == ProcessRmc(c, buf);
    } else {
      assert AfterProcess(f, buf) == ProcessVtg(c, buf);
    }
  }

  /** A matching checksum sets the checksum flag, and the field loop leaves
      it set whether or not a conversion throws. */
  lemma MatchSetsChecksum(f: ParserState, buf: seq<char>)
    requires Recognized(buf) && ChecksumMatches(buf)
    ensures AfterProcess(f, buf).state.isChecksum
    ensures AfterProcess(f, buf).outcome == Decoded || AfterProcess(f, buf).outcome.Threw?
  {
    if Contains(buf, "RMC") {
      DecodeRmcFrame(f.(isRMC := true, isChecksum := true), RmcFieldsOf(buf));
    } else {
      DecodeVtgFrame(f.(isVTG := true, isChecksum := true), VtgFieldsOf(buf));
    }
  }

  /** A sentence written the NMEA 0183 way, '$', an ASCII body without '*',
      then '*' and the XOR of the body in two hexadecimal digits, passes the
      parser's checksum comparison. */
  lemma SentenceRoundTrip(body: seq<char>)
    requires '*' !in body
    requires forall j :: 0 <= j < |body| ==> body[j] as int < 128
    ensures ChecksumMatches(['$'] + body + ['*'] + HexPair(Xor(Strip(body)) as nat))
  {
    var x := Xor(Strip(body));
    WrittenChecksum(body, HexPair(x as nat));
    ReadBackChecksum(['$'] + body + ['*'], x as nat);
  }

  /** The checksum computed for such a sentence is the XOR of its body,
      below 128, so the signed `char` holding it is not negative. */
  lemma WrittenChecksum(body: seq<char>, tail: seq<char>)
    requires '*' !in body
    requires forall j :: 0 <= j < |body| ==> body[j] as int < 128
    ensures ComputedChecksum(['$'] + body + ['*'] + tail) == Xor(Strip(body)) as int
  {
    WrittenByte(body, tail);
    StripAscii(body);
    AsciiXor(Strip(body));
  }

  /** A sentence written the NMEA 0183 way passes the comparison, and the
      same sentence with one body character changed to one of another byte
      (neither '$' nor '*') fails it. */
  lemma CorruptedSentenceFails(a: seq<char>, c: char, d: char, b: seq<char>)
    requires '*' !in a + [c] + b
    requires forall j :: 0 <= j < |a + [c] + b| ==> (a + [c] + b)[j] as int < 128
    requires c != '$' && d != '$' && d != '*' && Byte(c) != Byte(d)
    ensures var tail := HexPair(Xor(Strip(a + [c] + b)) as nat);
      ChecksumMatches(['$'] + (a + [c] + b) + ['*'] + tail) &&
      !ChecksumMatches(['$'] + (a + [d] + b) + ['*'] + tail)
  {
    var body := a + [c] + b;
    var x := Xor(Strip(body));
    var tail := HexPair(x as nat);
    SentenceRoundTrip(body);
    StripAscii(body);
    AsciiXor(Strip(body));
    WrittenByte(body, tail);
    CorruptedLayout(a, c, d, b, tail);
    ChecksumDetectsChange(['$'] + a, c, d, b + ['*'] + tail);
    ReadBackChecksum(['$'] + (a + [d] + b) + ['*'], x as nat);
    OtherByteFails(['$'] + (a + [d] + b) + ['*'] + tail, x);
  }

  /** The checksum byte of a written sentence is the XOR of its body. */
  lemma WrittenByte(body: seq<char>, tail: seq<char>)
    requires '*' !in body
    ensures ChecksumOf(['$'] + body + ['*'] + tail) == Xor(Strip(body))
  {
    assert '*' !in ['$'] + body;
    ChecksumStopsAtStar(['$'] + body, tail);
    StripConcat(['$'], body);
    assert Strip(['$']) == [];
    assert Strip(['$'] + body) == Strip(body);
  }

  /** Where the changed character sits in both sentences */
  lemma CorruptedLayout(a: seq<char>, c: char, d: char, b: seq<char>, tail: seq<char>)
    requires '*' !in a + [c] + b
    ensures ['$'] + (a + [c] + b) + ['*'] + tail == (['$'] + a) + [c] + (b + ['*'] + tail)
    ensures ['$'] + (a + [d] + b) + ['*'] + tail == (['$'] + a) + [d] + (b + ['*'] + tail)
    ensures '*' !in ['$'] + a
  {
    assert forall j :: 0 <= j < |a| ==> a[j] == (a + [c] + b)[j];
  }

  /** Digits that read as a value below 128 do not match a checksum byte
      other than that value. */
  lemma OtherByteFails(s: seq<char>, x: bv8)
    requires x < 128 && |s| >= 2 && ExpectedChecksum(s) == Some(x as int)
    requires ChecksumOf(s) != x
    ensures !ChecksumMatches(s)
  {
  }

  /** The computed checksum is a signed `char`: a payload whose XOR is 128
      or more gives a negative `int`, which two hexadecimal digits never
      denote, so such a sentence fails the comparison however it ends in
      digits. */
  lemma HighChecksumNeverMatches(buf: seq<char>)
    requires |buf| >= 2 && IsHexDigit(buf[|buf| - 2]) && IsHexDigit(buf[|buf| - 1])
    requires ChecksumOf(buf) >= 128
    ensures !ChecksumMatches(buf)
  {
    assert ComputedChecksum(buf) < 0;
    assert ExpectedChecksum(buf).value >= 0;
  }

  /** Two hexadecimal digits at the end are read back as their value. */
  lemma ReadBackChecksum(front: seq<char>, v: nat)
    requires v < 256
    ensures |front + HexPair(v)| >= 2 && ExpectedChecksum(front + HexPair(v)) == Some(v)
  {
    var s := front + HexPair(v);
    assert s[|s| - 2..] == HexPair(v);
    StoiHexRoundTrip(v);
  }
}
