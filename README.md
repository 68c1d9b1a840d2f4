# NMEA parser model

A Dafny model of the `NMEAParser` class of `src/nmea_parser.cpp`, a ROS node
that turns NMEA 0183 sentences into a navigation fix and a course over
ground. The node receives one sentence per callback. `nmeaProcess`
recognises an RMC sentence (any sentence holding the text "RMC") before a
VTG sentence (one holding "VTG" but not "RMC"). It compares the XOR checksum
of the sentence with the two hexadecimal characters that end it. It then
walks the comma-separated fields, writing the object's private flags and
values. `nmeaCallback` publishes a fix, and a course once one has been
seen, when the RMC and checksum flags are set, and clears those flags. Its
VTG branch would log a heading if the heading and reference flags were also
set, but the heading flag is always cleared (see below); it then clears the
VTG flags.

The model is in seven files:

- `cpp_string.dfy` (`CppString`): the parts of `std::string` the parser
  uses, `find` of one character and `substr`, and the conversions `stoi`
  (base 16, two characters) and `stof` (decimal digits with an optional sign
  and fraction).
- `checksum.dfy` (`Checksum`): the checksum of `calcNMEAChecksum` as a byte
  XOR, and the `int` accumulator holding a sign-extended `char`.
- `sentence.dfy` (`Sentence`): what `nmeaProcess` and `nmeaCallback` do to
  the fields, as functions over a record of the fields. An exception is a
  value, `Threw(fault)`: the callback then stops before it publishes or
  resets anything.
- `parser.dfy` (`Parser`): the class `NmeaParser`, with the private fields
  as mutable fields. Its methods follow the C++ statement by statement. Each
  is proved to leave the fields as the function of `Sentence` says.
- `properties.dfy`, `decoding.dfy`, `publishing.dfy`: what the parser
  guarantees, and what it does not.

The model follows the code, including where the code does something other
than what the NMEA 0183 sentence format and its checksum rule suggest:

- The checksum skips every '$' in the sentence, not only the leading one.
  The model takes `char` to be a signed 8-bit type and `int` 32-bit two's
  complement, as on x86 targets. There, a checksum of 128 or more never
  matches two hexadecimal digits (`Properties.HighChecksumNeverMatches`).
  Where `char` is unsigned it does.
- The status is the one character after the second comma, so an empty
  status field reads as ",", which counts as a fix.
- The VTG loop sets the heading flag and clears it again at once, so the
  heading log line is never written (`Publishing.HeadingNeverLogged`).
- A checksum mismatch on an RMC sentence leaves the RMC flag set. The next
  VTG sentence with a right checksum and a heading field that is empty or
  converts then publishes a fix again from the old fields
  (`Publishing.StaleFixRepublished`). Once a fix has been
  published, the hemisphere flags are false, so such a fix is mirrored
  (`Publishing.StaleFixMirrored`).
- An RMC sentence whose latitude does not convert throws. This happens,
  for example, with the empty latitude a receiver without a fix sends.
  Nothing in the node catches the exception, so as written it leaves the
  callback and the spin loop. The RMC and checksum flags stay set. If a
  caller caught the exception and kept delivering sentences to the same
  object, the next sentence the parser does not recognise would publish a
  fix (`Publishing.ThrownFixPublishedLater`). So would a VTG sentence with a
  right checksum and a heading field that is empty or converts
  (`Publishing.ThrownFixPublishedByVtg`). An RMC or VTG sentence whose
  checksum does not match, or cannot be read, publishes nothing: the
  comparison clears the checksum flag or throws first
  (`Publishing.ThrownFixWithheld`).
- The callback's VTG branch does not clear the checksum flag. With no RMC
  flag pending, a VTG sentence whose checksum matches leaves the flag set
  (`Publishing.VtgKeepsChecksumFlag`); one whose checksum does not match
  clears it in the comparison.
- The current and previous course are always equal
  (`Publishing.RunKeepsCourseSettled`), so the fallback to the previous
  course on an empty course field never changes the course.
- A course goes out with every fix once any earlier RMC sentence latched
  one (`Publishing.CourseLatchedByHistory`). A non-empty course field
  behind a latitude or longitude that throws is never reached and does
  not count.

## Model

| member | source | states |
|---|---|---|
| CppString.Contains | src/nmea_parser.cpp:158 | `buf.find(w) != npos`: some index of the text starts `w`; classification by it is in `Properties.RmcPrecedence` and `Properties.VtgPath` |
| CppString.ParseFloat | src/nmea_parser.cpp:196-197 | `stof`: white space, a sign, digits and a fraction, the longest prefix converted; its values are `CppString.ParseDigits` and `CppString.ParseDecimal` |
| CppString.FindChar | src/nmea_parser.cpp:179 | `find` of one character gives an index at or after the start that holds it, or -1 (`npos` stored in an `int`) |
| CppString.FindCharFirst | src/nmea_parser.cpp:179 | no index between the start and the result holds the character, and none at all when the result is -1 |
| CppString.FindCharAt | src/nmea_parser.cpp:179 | `find` returns the first index at or after the start that holds the character |
| CppString.FindCharNone | src/nmea_parser.cpp:179 | `find` gives -1 when no character from the start on matches |
| CppString.Substr | src/nmea_parser.cpp:194 | `substr` yields `count` characters, or the rest when the count is negative (from an `int` -1) or too long |
| CppString.SubstrSlice | src/nmea_parser.cpp:194 | `substr` is the slice of that length, or the rest of the string |
| CppString.StoiHex | src/nmea_parser.cpp:161 | `stoi(…, 0, 16)` of two characters is between -15 and 255 when it converts |
| CppString.HexValue | src/nmea_parser.cpp:161 | a hexadecimal digit stands for a value below 16 |
| CppString.HexChar | src/nmea_parser.cpp:161 | each value below 16 has a hexadecimal digit that reads back as it |
| CppString.FractionValue | src/nmea_parser.cpp:196-197 | the digits after the '.' that `stof` reads add less than one |
| CppString.StoiHexRoundTrip | src/nmea_parser.cpp:161 | two hexadecimal digits of a byte are read back as that byte |
| CppString.ParseDigits | src/nmea_parser.cpp:196 | `stof` of digits followed by nothing, or by a character that cannot continue a number (not a digit, '.', an exponent or a hexadecimal prefix), is their decimal value |
| CppString.ParseDecimal | src/nmea_parser.cpp:197 | `stof` of digits, '.', and digits, followed by nothing or by a character that is neither a digit nor an exponent, is their decimal value |
| Checksum.Xor | src/nmea_parser.cpp:139-144 | the XOR of the bytes of a text, split over concatenation by `Checksum.XorConcat` |
| Checksum.Payload | src/nmea_parser.cpp:130-137 | the characters the checksum loop XORs: before the first '*', '$' skipped |
| Checksum.ChecksumOf | src/nmea_parser.cpp:126-149 | the checksum byte; the loop computes its signed value (`Parser.NmeaParser.CalcChecksum`), and `Checksum.ChecksumStopsAtStar` and `Checksum.ChecksumDetectsChange` state what it covers |
| Checksum.Widen | src/nmea_parser.cpp:139-144 | a signed `char` in a 32-bit `int`: sign extension (`Checksum.ExtendedXor`, `Checksum.WidenValue`) |
| Checksum.BeforeStar | src/nmea_parser.cpp:135-137 | the characters the loop sees are a prefix without '*', ended by the first '*' |
| Checksum.Strip | src/nmea_parser.cpp:133-134 | every '$' is skipped and nothing longer results |
| Checksum.ExtendedXor | src/nmea_parser.cpp:139-144 | XOR of a sign-extended accumulator and a sign-extended character is again sign-extended, with the XOR of the low bytes |
| Checksum.WidenXor | src/nmea_parser.cpp:139-144 | the `int` accumulator absorbs a character as its byte XOR |
| Checksum.WidenValue | src/nmea_parser.cpp:148 | the `int` returned is the signed `char` value of the XOR |
| Checksum.WidenZero | src/nmea_parser.cpp:139 | the accumulator is 0 exactly when the byte XOR is 0 |
| Checksum.SignedChar | src/nmea_parser.cpp:127 | a signed `char` lies in -128..127 and is negative exactly for bytes of 128 or more |
| Checksum.XorConcat | src/nmea_parser.cpp:143 | the checksum of two parts is the XOR of their checksums |
| Checksum.StripConcat | src/nmea_parser.cpp:133-134 | skipping '$' works part by part |
| Checksum.BeforeStarConcat | src/nmea_parser.cpp:135-137 | a part without '*' is kept whole |
| Checksum.ChecksumStopsAtStar | src/nmea_parser.cpp:130-137 | nothing from the first '*' on, the two checksum digits included, affects the checksum |
| Checksum.ChecksumDetectsChange | src/nmea_parser.cpp:130-146 | changing one payload character to one of another byte changes the checksum |
| Checksum.ChecksumSplit | src/nmea_parser.cpp:130-146 | the checksum around one payload character is the XOR of the parts and that character |
| Checksum.AsciiXor | src/nmea_parser.cpp:126-149 | ASCII payloads give a checksum below 128 |
| Checksum.StripAscii | src/nmea_parser.cpp:133-134 | skipping '$' keeps an ASCII payload ASCII |
| Sentence.Initial | src/nmea_parser.cpp:56-80 | the values `initSetup` assigns (`Parser.NmeaParser.InitSetup`), consistent by `Publishing.InitialConsistent` |
| Sentence.FieldAt | src/nmea_parser.cpp:193-194 | the text from after a comma to the next comma or the end (`Properties.FieldBetween`) |
| Sentence.Field | src/nmea_parser.cpp:179-194 | the text iteration `i` of a field loop reads; of a comma-joined sentence, field `i + 1` (`Properties.FieldOfJoin`) |
| Sentence.StatusText | src/nmea_parser.cpp:181 | the one status character after the second comma (`Properties.StatusIsFirstCharacter`) |
| Sentence.Stof | src/nmea_parser.cpp:196 | `stof` with `invalid_argument` as a value |
| Sentence.Coordinate | src/nmea_parser.cpp:194-198 | degrees plus minutes over sixty, or the exception (`Decoding.CoordinateValue`, `Decoding.CoordinateNeedsDegrees`, `Decoding.CoordinateNeedsDot`) |
| Sentence.Latch | src/nmea_parser.cpp:218-232 | the course latch (`Decoding.LatchKeepsLastCourse`, `Decoding.LatchMarksSeen`) |
| Sentence.RmcStep | src/nmea_parser.cpp:180-232 | one iteration of the RMC loop, as `Parser.NmeaParser.ReadRmcField` computes it |
| Sentence.RmcLoop | src/nmea_parser.cpp:178-233 | the first iterations of the RMC loop, as `Parser.NmeaParser.ReadRmc` computes them |
| Sentence.VtgStep | src/nmea_parser.cpp:257-269 | one iteration of the VTG loop |
| Sentence.VtgLoop | src/nmea_parser.cpp:255-270 | the first iterations of the VTG loop, as `Parser.NmeaParser.ReadVtg` computes them |
| Sentence.DecodeRmc | src/nmea_parser.cpp:178-233 | the RMC loop in closed form (`Sentence.RmcLoopIsDecodeRmc`); what it writes is in `Decoding` |
| Sentence.DecodePosition | src/nmea_parser.cpp:192-232 | the loop from the latitude on (`Decoding.PositionFrame`) |
| Sentence.DecodeLongitude | src/nmea_parser.cpp:205-232 | the loop from the longitude on (`Decoding.LongitudeFrame`) |
| Sentence.DecodeVtg | src/nmea_parser.cpp:255-270 | the VTG loop in closed form (`Sentence.VtgLoopIsDecodeVtg`, `Decoding.VtgFieldsSet`) |
| Sentence.ComputedChecksum | src/nmea_parser.cpp:162 | the `int` `calcNMEAChecksum` returns |
| Sentence.ExpectedChecksum | src/nmea_parser.cpp:160-161 | `stoi` of the last two characters (`Properties.ReadBackChecksum`) |
| Sentence.ChecksumMatches | src/nmea_parser.cpp:164 | the comparison succeeds (`Properties.SentenceRoundTrip`, `Properties.HighChecksumNeverMatches`) |
| Sentence.Gate | src/nmea_parser.cpp:160-172 | the checksum comparison and its early returns (`Properties.GateFrame`, `Properties.MismatchReadsNothing`, `Properties.UnreadableChecksum`) |
| Sentence.ProcessRmc | src/nmea_parser.cpp:159-233 | the RMC branch (`Properties.ProcessRmcFrame`) |
| Sentence.ProcessVtg | src/nmea_parser.cpp:236-270 | the VTG branch (`Properties.ProcessVtgFrame`) |
| Sentence.Finish | src/nmea_parser.cpp:178-233 | the end of a field loop: all read, or the exception |
| Sentence.AfterProcess | src/nmea_parser.cpp:153-272 | `nmeaProcess`, as `Parser.NmeaParser.Process` computes it (`Properties.RmcPrecedence`, `Properties.VtgPath`, `Properties.UnrecognizedUnchanged`) |
| Sentence.Signed | src/nmea_parser.cpp:93-97 | a coordinate negated unless its hemisphere flag is set |
| Sentence.Publish | src/nmea_parser.cpp:85-123 | publishing and resetting from the flags (`Publishing.FixResets`, `Publishing.VtgResets`, `Publishing.HeadingNeverLogged`) |
| Sentence.AfterCallback | src/nmea_parser.cpp:82-124 | `nmeaCallback`, as `Parser.NmeaParser.Callback` computes it (`Publishing.RmcFixPublished`, `Publishing.CallbackSettles`) |
| Sentence.Run | src/nmea_parser.cpp:82-124 | callbacks for a sequence of sentences (`Publishing.RunKeepsConsistent`, `Publishing.RunKeepsCourseSettled`, `Publishing.CourseLatchedByHistory`) |
| Sentence.Comma | src/nmea_parser.cpp:175-179 | the position after n searches is -1 or a comma of the sentence |
| Sentence.RmcFieldsRead | src/nmea_parser.cpp:178-232 | proof link, not source behaviour: the record `RmcFieldsOf` builds holds the status character or the field each RMC iteration reads, so the loop can be proved over the record |
| Sentence.RmcStaysStopped | src/nmea_parser.cpp:178-233 | once an iteration throws, later iterations change nothing |
| Sentence.RmcLoopIsDecodeRmc | src/nmea_parser.cpp:178-233 | the eight iterations of the RMC loop equal the closed form: status, position, course latch |
| Sentence.RmcLoopDecodesLongitude | src/nmea_parser.cpp:205-232 | iterations 4 to 7 are the longitude, its hemisphere and the latch |
| Sentence.RmcLoopLatches | src/nmea_parser.cpp:218-232 | iterations 6 and 7 are the course latch |
| Sentence.VtgLoopIsDecodeVtg | src/nmea_parser.cpp:255-270 | the two iterations of the VTG loop equal the closed form |
| Parser.NmeaParser.constructor | src/nmea_parser.cpp:49-51 | a new parser holds the values `initSetup` assigns and an empty sentence |
| Parser.NmeaParser.InitSetup | src/nmea_parser.cpp:56-80 | every flag and value takes its initial value; the stored sentence stays |
| Parser.NmeaParser.ClearFlags | src/nmea_parser.cpp:57-67 | the flags: no RMC, VTG, checksum, status, course, heading or reference; north, east and first course set |
| Parser.NmeaParser.ClearValues | src/nmea_parser.cpp:70-75 | the coordinates, both courses and the heading are 0 |
| Parser.NmeaParser.CalcChecksum | src/nmea_parser.cpp:126-149 | the loop returns the signed `char` value of the XOR of the characters before the first '*', '$' excepted |
| Parser.NmeaParser.ScanCharacter | src/nmea_parser.cpp:131-146 | one pass of the `switch` keeps the accumulator equal to the checksum of the characters scanned; '*' ends the loop |
| Parser.NmeaParser.Absorb | src/nmea_parser.cpp:138-145 | the `default:` case absorbs one character into the checksum |
| Parser.NmeaParser.Accumulate | src/nmea_parser.cpp:139-144 | both branches of the first-character test give the sign-extended XOR |
| Parser.NmeaParser.ToInt | src/nmea_parser.cpp:148 | the returned `int` is the signed value of the checksum byte |
| Parser.NmeaParser.Process | src/nmea_parser.cpp:153-272 | `nmeaProcess` leaves the fields and the outcome the function `AfterProcess` gives |
| Parser.NmeaParser.CheckChecksum | src/nmea_parser.cpp:160-172 | throws for a tail that is not hexadecimal, clears the flag and stops on a mismatch, sets it otherwise |
| Parser.NmeaParser.CheckAndReadRmc | src/nmea_parser.cpp:159-233 | the RMC branch: checksum, then the field loop |
| Parser.NmeaParser.CheckAndReadVtg | src/nmea_parser.cpp:236-270 | the VTG branch: checksum, then the field loop |
| Parser.NmeaParser.ReadRmc | src/nmea_parser.cpp:174-233 | the RMC loop computes eight iterations of `RmcStep`, stopping at the first exception |
| Parser.NmeaParser.ReadRmcField | src/nmea_parser.cpp:180-232 | one iteration of the `if` chain on `i` |
| Parser.NmeaParser.ReadStatus | src/nmea_parser.cpp:180-191 | the status flag is set unless the character is "V" |
| Parser.NmeaParser.ReadLatitude | src/nmea_parser.cpp:192-199 | the latitude is stored, or the conversion's exception is raised |
| Parser.NmeaParser.ReadNorth | src/nmea_parser.cpp:200-204 | north exactly when the field is "N" |
| Parser.NmeaParser.ReadLongitude | src/nmea_parser.cpp:205-212 | the longitude is stored, or the conversion's exception is raised |
| Parser.NmeaParser.ReadEast | src/nmea_parser.cpp:213-217 | east exactly when the field is "E" |
| Parser.NmeaParser.ReadCourse | src/nmea_parser.cpp:218-232 | the course latch, with the flags set before `stof` can throw |
| Parser.NmeaParser.ReadCoordinate | src/nmea_parser.cpp:195-198 | degrees plus minutes over sixty, or the exception of `stof` or of `substr` |
| Parser.NmeaParser.ReadVtg | src/nmea_parser.cpp:251-270 | the VTG loop computes two iterations of `VtgStep` |
| Parser.NmeaParser.ReadHeading | src/nmea_parser.cpp:257-264 | the heading is stored when it converts, and its flag is cleared |
| Parser.NmeaParser.ReadReference | src/nmea_parser.cpp:265-269 | the reference flag is set exactly for "T" |
| Parser.NmeaParser.Callback | src/nmea_parser.cpp:82-124 | stores the sentence, processes it, and publishes and resets as `AfterCallback` gives |
| Parser.NmeaParser.PublishFlags | src/nmea_parser.cpp:85-123 | the flag test after `nmeaProcess`: fix, heading, or nothing |
| Parser.NmeaParser.PublishFix | src/nmea_parser.cpp:85-117 | the fix with signed coordinates, the course when one was seen, then the RMC flags cleared |
| Parser.NmeaParser.LogHeading | src/nmea_parser.cpp:118-123 | the heading when both its flags are set, then the VTG flags cleared |
| Parser.DollarStep | src/nmea_parser.cpp:133-134 | a '$' leaves the checksum as it was |
| Parser.CharStep | src/nmea_parser.cpp:138-145 | any other character before '*' is XOR-ed in |
| Parser.AccumulateStep | src/nmea_parser.cpp:139-144 | starting from 0 and XOR-ing are the same on sign-extended bytes |
| Parser.StarEnds | src/nmea_parser.cpp:135-137 | at a '*' the checksum of the scanned part is that of the whole buffer |
| Parser.NoStar | src/nmea_parser.cpp:130 | a loop that ran to the end saw the whole buffer |
| Properties.JoinShape | src/nmea_parser.cpp:179 | fields joined by commas: lengths, the comma after each field, and where each field starts |
| Properties.JoinAt | src/nmea_parser.cpp:179 | each character of a joined sentence is the character of the field it lies in |
| Properties.CommaOfJoin | src/nmea_parser.cpp:179 | the n-th comma search finds the comma in front of field n |
| Properties.FieldBetween | src/nmea_parser.cpp:193-194 | the text read after a comma is the text up to the next comma or the end |
| Properties.FieldOfJoin | src/nmea_parser.cpp:193-194 | field i as the loops read it is field i + 1 of the joined sentence |
| Properties.StatusIsFirstCharacter | src/nmea_parser.cpp:181-182 | the status reads "V" exactly when field 1 starts with 'V' |
| Properties.DecodeRmcFrame | src/nmea_parser.cpp:178-233 | the RMC loop writes neither the kind flags, the checksum flag, nor the VTG fields |
| Properties.DecodeVtgFrame | src/nmea_parser.cpp:255-270 | the VTG loop writes neither the kind flags, the checksum flag, nor the RMC fields |
| Properties.GateFrame | src/nmea_parser.cpp:160-172 | the checksum comparison writes only the checksum flag, cleared on a mismatch |
| Properties.ProcessRmcFrame | src/nmea_parser.cpp:159-233 | the RMC branch leaves the kind flags and the VTG fields |
| Properties.ProcessVtgFrame | src/nmea_parser.cpp:236-270 | the VTG branch leaves the kind flags and the RMC fields |
| Properties.RmcPrecedence | src/nmea_parser.cpp:158-159 | a sentence holding "RMC" sets the RMC flag, even when it holds "VTG", and leaves the VTG flag and fields |
| Properties.VtgPath | src/nmea_parser.cpp:235-236 | the VTG branch is taken only without "RMC": it sets the VTG flag and leaves the RMC flag and fields |
| Properties.UnrecognizedUnchanged | src/nmea_parser.cpp:153-272 | a sentence without "RMC" and "VTG" changes nothing |
| Properties.RecognizedLength | src/nmea_parser.cpp:160 | a recognized sentence is long enough for `substr(buf_size - 2)` |
| Properties.UnreadableChecksum | src/nmea_parser.cpp:160-161 | a tail that is not hexadecimal throws after the kind flag is set, before anything else |
| Properties.MismatchReadsNothing | src/nmea_parser.cpp:164-172 | a mismatch clears the checksum flag and returns before any field is read |
| Properties.MatchSetsChecksum | src/nmea_parser.cpp:164-167 | a match sets the checksum flag, which the fields then leave set |
| Properties.SentenceRoundTrip | src/nmea_parser.cpp:126-172 | '$', an ASCII body without '*', '*' and the body's XOR in hexadecimal passes the checksum comparison |
| Properties.HighChecksumNeverMatches | src/nmea_parser.cpp:126-164 | a payload XOR of 128 or more never equals two hexadecimal digits, the computed `int` being negative |
| Properties.CorruptedSentenceFails | src/nmea_parser.cpp:126-172 | a sentence written with its XOR passes the comparison, and the same sentence with one body character changed to one of another byte fails it |
| Properties.WrittenByte | src/nmea_parser.cpp:126-149 | the checksum byte of such a sentence is the XOR of its body, '$' and the tail excluded |
| Properties.CorruptedLayout | src/nmea_parser.cpp:130-137 | where the changed character sits in the good and in the changed sentence |
| Properties.OtherByteFails | src/nmea_parser.cpp:164 | digits reading a value below 128 do not match a checksum byte other than it |
| Properties.WrittenChecksum | src/nmea_parser.cpp:126-149 | the checksum of such a sentence is the XOR of its body |
| Properties.ReadBackChecksum | src/nmea_parser.cpp:160-161 | its last two characters are read as that value |
| Decoding.CoordinateSplit | src/nmea_parser.cpp:195-198 | with the '.' at least two characters in, the field is degrees plus minutes over sixty |
| Decoding.CoordinateValue | src/nmea_parser.cpp:194-198 | digits, two minute digits, '.', fraction give degrees plus minutes over sixty |
| Decoding.CoordinateLayout | src/nmea_parser.cpp:195 | where the '.', the degrees and the minutes of such a field are |
| Decoding.DotAfterDigits | src/nmea_parser.cpp:195 | the '.' found is the one after the digits |
| Decoding.DegreesValue | src/nmea_parser.cpp:196 | `stof` of the degrees |
| Decoding.MinutesValue | src/nmea_parser.cpp:197 | `stof` of the minutes |
| Decoding.CoordinateNeedsDegrees | src/nmea_parser.cpp:195-197 | a '.' fewer than three characters in makes the field throw |
| Decoding.CoordinateNeedsDot | src/nmea_parser.cpp:195-197 | a field without '.' throws; an empty one throws `invalid_argument` |
| Decoding.CoordinateExample | src/nmea_parser.cpp:194-198 | "4807.038" is 48 degrees and 7.038 minutes |
| Decoding.StatusAlwaysSet | src/nmea_parser.cpp:180-191 | the status flag is written before anything can throw, and is set unless the text is "V" |
| Decoding.PositionFrame | src/nmea_parser.cpp:192-232 | nothing after the status writes it |
| Decoding.LongitudeFrame | src/nmea_parser.cpp:205-232 | nothing after the latitude writes the status, the latitude or its hemisphere |
| Decoding.RmcCompletes | src/nmea_parser.cpp:178-233 | the loop runs through exactly when both coordinates convert and the course is empty or converts |
| Decoding.LatitudeStored | src/nmea_parser.cpp:192-204 | a converted latitude is stored with north for "N"; a failed one leaves all but the status |
| Decoding.LongitudeStored | src/nmea_parser.cpp:205-217 | a converted longitude is stored with east for "E" |
| Decoding.LatchKeepsLastCourse | src/nmea_parser.cpp:218-232 | the latch keeps the current and previous course equal, changing them only for a field that converts |
| Decoding.LatchMarksSeen | src/nmea_parser.cpp:218-232 | a non-empty course field marks a course seen for good; the present flag follows the field |
| Decoding.DecodeRmcMarksSeen | src/nmea_parser.cpp:178-232 | the RMC loop marks a course as seen exactly when both coordinates convert and the course field is non-empty |
| Decoding.DecodeRmcCourse | src/nmea_parser.cpp:218-232 | after converted coordinates: an empty course field falls back to the previous course once one was seen; a non-empty one is stored or throws |
| Decoding.VtgFieldsSet | src/nmea_parser.cpp:255-270 | heading flag cleared, reference "T" sets the reference flag, a converted heading stored, a failed one changes nothing |
| Publishing.LongitudeKeepsCourseRule | src/nmea_parser.cpp:205-232 | a course is marked present only once one is latched, after the longitude |
| Publishing.RmcKeepsCourseRule | src/nmea_parser.cpp:178-233 | the same after the whole RMC loop |
| Publishing.ProcessKeepsConsistent | src/nmea_parser.cpp:153-272 | `nmeaProcess` keeps the course rule and the heading flag clear |
| Publishing.PublishKeepsConsistent | src/nmea_parser.cpp:85-123 | publishing and resetting keep them |
| Publishing.CallbackKeepsConsistent | src/nmea_parser.cpp:82-124 | one callback keeps them |
| Publishing.RunKeepsConsistent | src/nmea_parser.cpp:82-124 | any run of callbacks keeps them |
| Publishing.HeadingNeverLogged | src/nmea_parser.cpp:119 | the heading log line is never written |
| Publishing.Trace | src/nmea_parser.cpp:82-124 | one output per callback of a run |
| Publishing.NoHeadingInRun | src/nmea_parser.cpp:119 | no callback of a run logs a heading |
| Publishing.InitialConsistent | src/nmea_parser.cpp:56-80 | the initial fields satisfy both invariants |
| Publishing.CourseEmitted | src/nmea_parser.cpp:99-105 | a course goes out exactly with a fix whose processing left a course marked as seen; given the course rule, the present flag adds nothing |
| Publishing.ProcessRmcMarksSeen | src/nmea_parser.cpp:159-232 | the RMC branch marks a course as seen exactly for a sentence whose checksum matches, whose coordinates convert and whose course field is non-empty |
| Publishing.CallbackMarksSeen | src/nmea_parser.cpp:82-124 | one callback marks a course as seen exactly for such a sentence; VTG sentences and publishing leave the mark |
| Publishing.RunMarksSeen | src/nmea_parser.cpp:82-124 | over a run, the mark is cleared exactly when some sentence of the run is such a sentence |
| Publishing.NoneLatchSplit | src/nmea_parser.cpp:82-124 | no sentence of a run latches exactly when neither the first nor a later one does |
| Publishing.CourseLatchedByHistory | src/nmea_parser.cpp:218-232 | from the initial state, fixes carry a course exactly when some sentence so far was a checksum-valid RMC whose coordinates converted and whose course field was non-empty |
| Publishing.RmcCourseEmitted | src/nmea_parser.cpp:99-105 | the course published: the value of a converting field; nothing and the exception for one that does not convert; for an empty field the previous course once one was seen, otherwise none |
| Publishing.RmcProcessed | src/nmea_parser.cpp:158-233 | an RMC sentence with a matching checksum is processed by the field loop |
| Publishing.RmcCourse | src/nmea_parser.cpp:218-232 | the RMC loop leaves the converted course, or the one before for an empty field |
| Publishing.ProcessKeepsCourseSettled | src/nmea_parser.cpp:153-272 | `nmeaProcess` keeps the current and previous course equal |
| Publishing.ProcessRmcKeepsCourse | src/nmea_parser.cpp:159-233 | so does its RMC branch, checksum comparison included |
| Publishing.CallbackKeepsCourseSettled | src/nmea_parser.cpp:82-124 | a callback keeps the current and previous course equal |
| Publishing.RunKeepsCourseSettled | src/nmea_parser.cpp:82-124 | so does any run |
| Publishing.RmcFixPublished | src/nmea_parser.cpp:85 | an RMC sentence publishes a fix exactly when its checksum matches and all its fields convert |
| Publishing.RmcFix | src/nmea_parser.cpp:85-109 | the fix: status unless "V", latitude negated unless "N", longitude negated unless "E" |
| Publishing.RmcRunsThrough | src/nmea_parser.cpp:158-233 | such a sentence passes the checksum and runs the loop to its end |
| Publishing.RmcSentenceFix | src/nmea_parser.cpp:158-233 | the fix a comma-separated RMC sentence publishes, in terms of its fields |
| Publishing.MismatchLeavesRmcFlag | src/nmea_parser.cpp:159-172 | a checksum mismatch on RMC publishes nothing and leaves the RMC flag set |
| Publishing.StaleFixRepublished | src/nmea_parser.cpp:85-117 | after that, a VTG sentence with a right checksum and a heading field that is empty or converts publishes a fix from the old fields |
| Publishing.ThrownRmcLeavesFlags | src/nmea_parser.cpp:158-198 | a latitude that throws leaves the RMC and checksum flags set and the status written |
| Publishing.ThrownFixPublishedLater | src/nmea_parser.cpp:82-117 | the next sentence, if the parser does not recognise it, then publishes a fix: the status of the sentence that threw, the coordinates from before it |
| Publishing.ThrownFixPublishedByVtg | src/nmea_parser.cpp:82-117 | so does a next VTG sentence with a right checksum and a heading field that is empty or converts |
| Publishing.ThrownFixWithheld | src/nmea_parser.cpp:159-172 | a next RMC or VTG sentence whose checksum does not match or cannot be read publishes nothing |
| Publishing.CallbackSettles | src/nmea_parser.cpp:85-123 | a callback that does not throw leaves no flag pair set |
| Publishing.UnrecognizedQuiet | src/nmea_parser.cpp:82-124 | with no flag pair set, an unrecognized sentence publishes and changes nothing |
| Publishing.VtgKeepsChecksumFlag | src/nmea_parser.cpp:118-123 | with no RMC flag pending, a VTG sentence whose checksum matches leaves the checksum flag set |
| Publishing.FixResets | src/nmea_parser.cpp:111-116 | a fix clears the RMC flags and sets south and west; the coordinates, the current and previous course, the first-course mark and the VTG flag and fields stay |
| Publishing.VtgResets | src/nmea_parser.cpp:118-123 | a VTG log clears the VTG flags; the heading stays |
| Publishing.StaleFixMirrored | src/nmea_parser.cpp:93-97 | a stale fix from the fields a fix left has no fix status and negated coordinates |

## Left out

- The ROS node handle, publishers and subscriber, the message headers, and
  the constant message fields (service, covariance type, frame id). The
  callback returns what it would publish.
- `ROS_INFO` and `cout` output, apart from whether the heading line would
  be logged.
- `main` and the node's start-up.
- `std::stof` returns a `float`, and the code stores it in a `double`; the
  model computes with exact reals and leaves out rounding.
- CppString.ParseFloat: converts any run of digits, so the
  `std::out_of_range` that `stof` throws for a value outside `float`'s
  range, too large or too small and non-zero (a latitude with fifty digits
  in front of its '.', or a fraction with forty leading zeros, say), is not
  modelled. `Sentence.Stof` and `Sentence.Coordinate` store such a value
  where the node would throw.
- The conversions: `stof` is modelled for leading white space, a sign,
  digits and a fraction. Exponents, "inf", "nan" and hexadecimal floats
  are not modelled, and text of that form reads as the digits in front of
  it. `stoi` is modelled for the two-character checksum field only.
- The copy of the sentence into a C array with `strcpy`: the array is one
  byte too short for the terminating NUL. The model reads the string, so
  neither that overflow nor a NUL inside a sentence is modelled.
- Characters are Dafny `char`s and stand for bytes (taken modulo 256 in
  the checksum); there is no text encoding.
- C++ exceptions are values: an exception out of `nmeaProcess` is an
  outcome after which the callback publishes and resets nothing. What
  happens to the exception beyond the callback is not modelled. Nothing in
  the node catches it, so as written it ends the node.
- Publishing.ThrownFixPublishedLater: describes the object only if a caller
  catches the exception and keeps delivering sentences to the same object.
- Publishing.ThrownFixPublishedByVtg: likewise, only for a caller that
  catches the exception.
- Publishing.ThrownFixWithheld: likewise, only for a caller that catches
  the exception.
  `Sentence.Run` and `Publishing.Trace` likewise carry on after a `Threw`
  outcome, which the node as written does not survive.
- Properties.HighChecksumNeverMatches: holds for a signed 8-bit `char` and
  a 32-bit two's-complement `int`, as `Checksum.Widen` and
  `Checksum.SignedChar` fix them. Where `char` is unsigned (ARM and
  AArch64 Linux) the checksum is 0 to 255, and a payload XOR of 128 or
  more does match its two digits.
- A sentence shorter than two characters cannot hold "RMC" or "VTG", so
  `substr(buf_size - 2)` is reached only for longer sentences and its
  exception is not modelled.
