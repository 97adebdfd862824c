/**
 The token decoder of the VEX IQ card application: it turns one fixed-layout log line of
 the robot controller,

   [13 binary digits: time in hundredths of a second][device letter][port digits][action code]

 into "(line) T.TTs Device Port Action", and a whole log file into the decoded lines.
 */
module TokenManager {
  import opened Results
  import opened Text

  // ---------------------------------------------------------------------------
  // Tables and layout
  // ---------------------------------------------------------------------------

  /** Device letter to device name. */
  const Devices: map<char, string> := map[
    'C' := "Controller",
    'D' := "Drivetrain",
    'G' := "Motor Group",
    'M' := "Motor",
    'B' := "Bumper",
    'X' := "Distance",
    'T' := "TouchLED",
    'Y' := "Color",
    'V' := "Vision",
    'A' := "AI Vision",
    'O' := "Optical",
    'Z' := "Gyro",
    'P' := "Pneumatic"
  ]

  /** Action code to action description. */
  const Actions: map<string, string> := map[
    "PON" := "Pump On",
    "POF" := "Pump Off",
    "EX1" := "Cylinder 1 Extend",
    "RT1" := "Cylinder 1 Retract",
    "EX2" := "Cylinder 2 Extend",
    "RT2" := "Cylinder 2 Retract",
    "EUP" := "EUp Pressed",
    "EDW" := "EDown Pressed",
    "FUP" := "FUp Pressed",
    "FDW" := "FDown Pressed",
    "LUP" := "Left Up Pressed",
    "LDW" := "Left Down Pressed",
    "RUP" := "Right Up Pressed",
    "RDW" := "Right Down Pressed",
    "FRD" := "Forward",
    "RRS" := "Reverse",
    "STP" := "Stop",
    "PRS" := "Pressed",
    "TCH" := "TouchLED Pressed"
  ]

  const UnknownDevice := "UNKNOWN"

  const TimeLength: nat := 13     // the time field is line[..13]
  const DeviceIndex: nat := 13    // the device letter is line[13]
  const PortStart: nat := 14      // the port digits start at line[14]
  const MinRecordLength: nat := 15

  /** The time field holds 13 binary digits: values 0 to 8191. */
  lemma TimeFieldBound()
    ensures Pow2(TimeLength) == 8192
    ensures forall s :: |s| == TimeLength && AllBinary(s) ==> BinaryValue(s) <= 8191
  {
  }

  /** Why a line could not be decoded: `Convert.ToInt32` refused its time field. */
  datatype DecodeError = InvalidTimeField(field: string, cause: ConvertError)

  /** The decoded fields of one record, as they are displayed. */
  datatype Event = Event(time: nat, device: string, port: string, action: string)

  // ---------------------------------------------------------------------------
  // Specification of the single-line decoder
  // ---------------------------------------------------------------------------

  /** A line returned as it is: blank, or too short to hold a record. */
  predicate IsPassThrough(line: string)
  {
    IsBlank(line) || |line| < MinRecordLength
  }

  /** The end of the run of digits that starts at index `i` of `s`. */
  function DigitRunEnd(s: string, i: nat): (e: nat)
    requires i <= |s|
    ensures i <= e <= |s|
    ensures forall k :: i <= k < e ==> IsDigit(s[k])
    ensures e == |s| || !IsDigit(s[e])
    decreases |s| - i
  {
    if i < |s| && IsDigit(s[i]) then DigitRunEnd(s, i + 1) else i
  }

  /** The run end is the only boundary with digits before it and a non-digit (or the end
      of the string) after it: the greedy scan has no alternative. */
  lemma DigitRunEndUnique(s: string, i: nat, e: nat)
    requires i <= e <= |s|
    requires forall k :: i <= k < e ==> IsDigit(s[k])
    requires e == |s| || !IsDigit(s[e])
    ensures DigitRunEnd(s, i) == e
  {
  }

  function DeviceName(letter: char): string
  {
    if letter in Devices then Devices[letter] else UnknownDevice
  }

  function ActionDescription(code: string): string
  {
    if code in Actions then Actions[code] else code
  }

  /** The fields of a line long enough to hold a record, or the time field's error. */
  function ParseEvent(line: string): Result<Event, DecodeError>
    requires |line| >= MinRecordLength
  {
    var field := line[..TimeLength];
    match ToInt32Base2(field)
    case Err(cause) => Err(InvalidTimeField(field, cause))
    case Ok(time) =>
      var portEnd := DigitRunEnd(line, PortStart);
      Ok(Event(time, DeviceName(line[DeviceIndex]), line[PortStart..portEnd],
               ActionDescription(line[portEnd..])))
  }

  /** The display string of a decoded line. */
  function Render(line: string, e: Event): string
  {
    "(" + line + (") " + Centiseconds(e.time) + "s " + e.device + " " + e.port + " " + e.action)
  }

  /** What `DecodeLine` returns for `line`, or the exception it raises. */
  function DecodedLine(line: string): Result<string, DecodeError>
  {
    if IsPassThrough(line) then Ok(line)
    else
      match ParseEvent(line)
      case Err(error) => Err(error)
      case Ok(e) => Ok(Render(line, e))
  }

  // ---------------------------------------------------------------------------
  // Properties of the single-line decoder
  // ---------------------------------------------------------------------------

  lemma PassThroughUnchanged(line: string)
    requires IsBlank(line) || |line| < MinRecordLength
    ensures DecodedLine(line) == Ok(line)
  {
  }

  /** Decoding fails exactly when the line is a record whose time field
      `Convert.ToInt32(_, 2)` refuses; the error names the field and the cause. */
  lemma DecodeFailsIff(line: string)
    ensures DecodedLine(line).Err? <==> !IsPassThrough(line) && !Base2Accepted(line[..TimeLength])
    ensures DecodedLine(line).Err? ==>
      DecodedLine(line).error.field == line[..TimeLength] &&
      DecodedLine(line).error.cause == (if line[0] == '-' then NegativeInBase2 else FormatError)
  {
  }

  /** A record whose time field holds a character other than a binary digit anywhere but
      in its first place, or one other than '+' there, fails to decode. */
  lemma NonBinaryTimeFails(line: string, k: nat)
    requires |line| >= MinRecordLength && !IsBlank(line)
    requires k < TimeLength && !IsBinaryDigit(line[k])
    requires k > 0 || line[0] != '+'
    ensures DecodedLine(line).Err?
  {
    var field := line[..TimeLength];
    assert field[k] == line[k];
    if k > 0 {
      assert field[1..][k - 1] == line[k];
    }
  }

  /** A record whose time field `Convert.ToInt32` accepts decodes to the rendering of its
      event, whose time is the value of the field's binary digits. */
  lemma DecodedRecord(line: string)
    requires !IsPassThrough(line) && Base2Accepted(line[..TimeLength])
    ensures ParseEvent(line).Ok?
    ensures DecodedLine(line) == Ok(Render(line, ParseEvent(line).value))
    ensures var digits := Base2Digits(line[..TimeLength]);
      AllBinary(digits) && ParseEvent(line).value.time == BinaryValue(digits)
    ensures ParseEvent(line).value.time < Pow2(TimeLength)
  {
  }

  /** The device of a record is the name the table gives its letter, or UNKNOWN. */
  lemma DecodedDevice(line: string)
    requires !IsPassThrough(line) && Base2Accepted(line[..TimeLength])
    ensures ParseEvent(line).Ok?
    ensures line[DeviceIndex] in Devices ==> ParseEvent(line).value.device == Devices[line[DeviceIndex]]
    ensures line[DeviceIndex] !in Devices ==> ParseEvent(line).value.device == UnknownDevice
  {
  }

  /** The port is the greedy digit run from index 14 and the action code everything after
      it; together with the first 14 characters they give back the line, and the action is
      the code's description from the table or the code itself. */
  lemma DecodedPortAction(line: string)
    requires !IsPassThrough(line) && Base2Accepted(line[..TimeLength])
    ensures ParseEvent(line).Ok?
    ensures var e := ParseEvent(line).value;
      var code := line[PortStart + |e.port|..];
      && line == line[..PortStart] + e.port + code
      && AllDigits(e.port)
      && (code == [] || !IsDigit(code[0]))
      && (code in Actions ==> e.action == Actions[code])
      && (code !in Actions ==> e.action == code)
  {
    var portEnd := DigitRunEnd(line, PortStart);
    assert ParseEvent(line).value.port == line[PortStart..portEnd];
    assert line == line[..PortStart] + line[PortStart..portEnd] + line[portEnd..];
  }

  /** Splitting the text after the device letter into a digit run and a rest that does not
      start with a digit can be done in one way only, and the decoder finds it. */
  lemma PortActionSplitUnique(line: string, port: string, code: string)
    requires !IsPassThrough(line) && Base2Accepted(line[..TimeLength])
    requires line[PortStart..] == port + code
    requires AllDigits(port) && (code == [] || !IsDigit(code[0]))
    ensures ParseEvent(line).Ok?
    ensures ParseEvent(line).value.port == port
    ensures ParseEvent(line).value.action == ActionDescription(code)
  {
    var e := PortStart + |port|;
    forall k | PortStart <= k < e ensures IsDigit(line[k]) {
      assert line[k] == port[k - PortStart];
    }
    if e < |line| {
      assert line[e] == code[0];
    }
    DigitRunEndUnique(line, PortStart, e);
    assert line[PortStart..e] == port;
    assert line[e..] == code;
  }

  /** A record whose time field is all binary digits carries the value of those 13 digits
      as its time, a count of hundredths of a second between 0 and 8191. */
  lemma DecodedTime(line: string)
    requires !IsPassThrough(line) && AllBinary(line[..TimeLength])
    ensures ParseEvent(line).Ok?
    ensures ParseEvent(line).value.time == BinaryValue(line[..TimeLength])
    ensures BinaryValue(line[..TimeLength]) <= 8191
  {
    TimeFieldBound();
  }

  // ---------------------------------------------------------------------------
  // The decoder's documented cases
  // ---------------------------------------------------------------------------

  /** The largest time a field can hold, zero, a value below one tenth of a second, and
      the time of the documentation's example. */
  lemma TimeRenderingExamples()
    ensures Centiseconds(8191) == "81.91"
    ensures Centiseconds(0) == "0.00"
    ensures Centiseconds(5) == "0.05"
    ensures Centiseconds(682) == "6.82"
  {
  }

  /** A record's decoding assembled from its parts, for lines given literally. */
  lemma DecodedFromParts(line: string, time: nat, portEnd: nat)
    requires |line| >= MinRecordLength && !IsBlank(line)
    requires ToInt32Base2(line[..TimeLength]) == Ok(time)
    requires PortStart <= portEnd <= |line|
    requires forall k :: PortStart <= k < portEnd ==> IsDigit(line[k])
    requires portEnd == |line| || !IsDigit(line[portEnd])
    ensures DecodedLine(line) == Ok(Render(line, Event(time, DeviceName(line[DeviceIndex]),
      line[PortStart..portEnd], ActionDescription(line[portEnd..]))))
  {
    DigitRunEndUnique(line, PortStart, portEnd);
  }

  /** A record whose time field is all zeros is at time 0. */
  lemma ZeroTimeField(line: string)
    requires |line| >= MinRecordLength
    requires forall k :: 0 <= k < TimeLength ==> line[k] == '0'
    ensures !IsBlank(line)
    ensures ToInt32Base2(line[..TimeLength]) == Ok(0)
  {
    assert !IsWhiteSpace(line[0]);
    var field := line[..TimeLength];
    assert forall k :: 0 <= k < |field| ==> field[k] == line[k];
    BinaryValueAllZeros(field);
  }

  /** The time field `0001010101010` holds 682 hundredths. */
  lemma DocCommentTimeField(line: string)
    requires |line| >= MinRecordLength && line[..TimeLength] == "0001010101010"
    ensures !IsBlank(line)
    ensures ToInt32Base2(line[..TimeLength]) == Ok(682)
  {
    assert !IsWhiteSpace(line[0]) by { assert line[0] == line[..TimeLength][0]; }
    var field := line[..TimeLength];
    assert AllBinary(field) && Base2Digits(field) == field;
    DocCommentTimeValue();
  }

  lemma DocCommentTimeValue()
    ensures BinaryValue("0001010101010") == 682
  {
    assert BinaryValue("0") == 0;
    BinaryValueAppend("0", '0');
    assert "0" + ['0'] == "00";
    BinaryValueAppend("00", '0');
    assert "00" + ['0'] == "000";
    BinaryValueAppend("000", '1');
    assert "000" + ['1'] == "0001";
    BinaryValueAppend("0001", '0');
    assert "0001" + ['0'] == "00010";
    BinaryValueAppend("00010", '1');
    assert "00010" + ['1'] == "000101";
    BinaryValueAppend("000101", '0');
    assert "000101" + ['0'] == "0001010";
    BinaryValueAppend("0001010", '1');
    assert "0001010" + ['1'] == "00010101";
    BinaryValueAppend("00010101", '0');
    assert "00010101" + ['0'] == "000101010";
    BinaryValueAppend("000101010", '1');
    assert "000101010" + ['1'] == "0001010101";
    BinaryValueAppend("0001010101", '0');
    assert "0001010101" + ['0'] == "00010101010";
    BinaryValueAppend("00010101010", '1');
    assert "00010101010" + ['1'] == "000101010101";
    BinaryValueAppend("000101010101", '0');
    assert "000101010101" + ['0'] == "0001010101010";
  }

  /** A record whose time field is all ones is at the largest time, 8191 hundredths. */
  lemma FullTimeField(line: string)
    requires |line| >= MinRecordLength
    requires forall k :: 0 <= k < TimeLength ==> line[k] == '1'
    ensures !IsBlank(line)
    ensures ToInt32Base2(line[..TimeLength]) == Ok(8191)
  {
    assert !IsWhiteSpace(line[0]);
    var field := line[..TimeLength];
    assert forall k :: 0 <= k < |field| ==> field[k] == line[k];
    BinaryValueAllOnes(field);
    TimeFieldBound();
  }

  lemma ExampleDocCommentFields(line: string)
    requires line == "0001010101010P12EX1"
    ensures forall k :: PortStart <= k < 16 ==> IsDigit(line[k])
    ensures !IsDigit(line[16])
    ensures DeviceName(line[DeviceIndex]) == "Pneumatic"
    ensures line[PortStart..16] == "12"
    ensures ActionDescription(line[16..]) == "Cylinder 1 Extend"
  {
  }

  lemma ExampleDocCommentTail()
    ensures ") " + "6.82" + "s " + "Pneumatic" + " " + "12" + " " + "Cylinder 1 Extend"
         == ") 6.82s Pneumatic 12 Cylinder 1 Extend"
  {
  }

  lemma ExampleDocCommentHead()
    ensures "(" + "0001010101010P12EX1" == "(0001010101010P12EX1"
  {
  }

  lemma ExampleDocCommentJoin()
    ensures "(0001010101010P12EX1" + ") 6.82s Pneumatic 12 Cylinder 1 Extend" == "(0001010101010P12EX1) 6.82s Pneumatic 12 Cylinder 1 Extend"
  {
  }

  lemma ExampleDocCommentText()
    ensures "(" + "0001010101010P12EX1" + (") " + "6.82" + "s " + "Pneumatic" + " " + "12" + " " + "Cylinder 1 Extend")
         == "(0001010101010P12EX1) 6.82s Pneumatic 12 Cylinder 1 Extend"
  {
    ExampleDocCommentHead();
    ExampleDocCommentTail();
    ExampleDocCommentJoin();
  }

  /** The example line of the decoder's own documentation: 682 hundredths. */
  lemma ExampleDocComment(line: string)
    requires line == "0001010101010P12EX1"
    ensures DecodedLine(line) == Ok("(0001010101010P12EX1) 6.82s Pneumatic 12 Cylinder 1 Extend")
  {
    DocCommentTimeField(line);
    ExampleDocCommentFields(line);
    DecodedFromParts(line, 682, 16);
    TimeRenderingExamples();
    ExampleDocCommentText();
  }

  lemma ExamplePneumaticExtendFields(line: string)
    requires line == "0000000000000P12EX1"
    ensures forall k :: PortStart <= k < 16 ==> IsDigit(line[k])
    ensures !IsDigit(line[16])
    ensures DeviceName(line[DeviceIndex]) == "Pneumatic"
    ensures line[PortStart..16] == "12"
    ensures ActionDescription(line[16..]) == "Cylinder 1 Extend"
  {
  }

  lemma ExamplePneumaticExtendTail()
    ensures ") " + "0.00" + "s " + "Pneumatic" + " " + "12" + " " + "Cylinder 1 Extend"
         == ") 0.00s Pneumatic 12 Cylinder 1 Extend"
  {
  }

  lemma ExamplePneumaticExtendHead()
    ensures "(" + "0000000000000P12EX1" == "(0000000000000P12EX1"
  {
  }

  lemma ExamplePneumaticExtendJoin()
    ensures "(0000000000000P12EX1" + ") 0.00s Pneumatic 12 Cylinder 1 Extend" == "(0000000000000P12EX1) 0.00s Pneumatic 12 Cylinder 1 Extend"
  {
  }

  lemma ExamplePneumaticExtendText()
    ensures "(" + "0000000000000P12EX1" + (") " + "0.00" + "s " + "Pneumatic" + " " + "12" + " " + "Cylinder 1 Extend")
         == "(0000000000000P12EX1) 0.00s Pneumatic 12 Cylinder 1 Extend"
  {
    ExamplePneumaticExtendHead();
    ExamplePneumaticExtendTail();
    ExamplePneumaticExtendJoin();
  }

  /** A known device, a two-digit port and a known action. */
  lemma ExamplePneumaticExtend(line: string)
    requires line == "0000000000000P12EX1"
    ensures DecodedLine(line) == Ok("(0000000000000P12EX1) 0.00s Pneumatic 12 Cylinder 1 Extend")
  {
    ZeroTimeField(line);
    ExamplePneumaticExtendFields(line);
    DecodedFromParts(line, 0, 16);
    TimeRenderingExamples();
    ExamplePneumaticExtendText();
  }

  lemma ExampleMotorPressedFields(line: string)
    requires line == "1111111111111M5PRS"
    ensures forall k :: PortStart <= k < 15 ==> IsDigit(line[k])
    ensures !IsDigit(line[15])
    ensures DeviceName(line[DeviceIndex]) == "Motor"
    ensures line[PortStart..15] == "5"
    ensures ActionDescription(line[15..]) == "Pressed"
  {
  }

  lemma ExampleMotorPressedTail()
    ensures ") " + "81.91" + "s " + "Motor" + " " + "5" + " " + "Pressed"
         == ") 81.91s Motor 5 Pressed"
  {
  }

  lemma ExampleMotorPressedHead()
    ensures "(" + "1111111111111M5PRS" == "(1111111111111M5PRS"
  {
  }

  lemma ExampleMotorPressedJoin()
    ensures "(1111111111111M5PRS" + ") 81.91s Motor 5 Pressed" == "(1111111111111M5PRS) 81.91s Motor 5 Pressed"
  {
  }

  lemma ExampleMotorPressedText()
    ensures "(" + "1111111111111M5PRS" + (") " + "81.91" + "s " + "Motor" + " " + "5" + " " + "Pressed")
         == "(1111111111111M5PRS) 81.91s Motor 5 Pressed"
  {
    ExampleMotorPressedHead();
    ExampleMotorPressedTail();
    ExampleMotorPressedJoin();
  }

  /** The largest time and a one-digit port. */
  lemma ExampleMotorPressed(line: string)
    requires line == "1111111111111M5PRS"
    ensures DecodedLine(line) == Ok("(1111111111111M5PRS) 81.91s Motor 5 Pressed")
  {
    FullTimeField(line);
    ExampleMotorPressedFields(line);
    DecodedFromParts(line, 8191, 15);
    TimeRenderingExamples();
    ExampleMotorPressedText();
  }

  lemma ExampleUnknownDeviceFields(line: string)
    requires line == "0000000000000Q9XYZ"
    ensures forall k :: PortStart <= k < 15 ==> IsDigit(line[k])
    ensures !IsDigit(line[15])
    ensures DeviceName(line[DeviceIndex]) == "UNKNOWN"
    ensures line[PortStart..15] == "9"
    ensures ActionDescription(line[15..]) == "XYZ"
  {
  }

  lemma ExampleUnknownDeviceTail()
    ensures ") " + "0.00" + "s " + "UNKNOWN" + " " + "9" + " " + "XYZ"
         == ") 0.00s UNKNOWN 9 XYZ"
  {
  }

  lemma ExampleUnknownDeviceHead()
    ensures "(" + "0000000000000Q9XYZ" == "(0000000000000Q9XYZ"
  {
  }

  lemma ExampleUnknownDeviceJoin()
    ensures "(0000000000000Q9XYZ" + ") 0.00s UNKNOWN 9 XYZ" == "(0000000000000Q9XYZ) 0.00s UNKNOWN 9 XYZ"
  {
  }

  lemma ExampleUnknownDeviceText()
    ensures "(" + "0000000000000Q9XYZ" + (") " + "0.00" + "s " + "UNKNOWN" + " " + "9" + " " + "XYZ")
         == "(0000000000000Q9XYZ) 0.00s UNKNOWN 9 XYZ"
  {
    ExampleUnknownDeviceHead();
    ExampleUnknownDeviceTail();
    ExampleUnknownDeviceJoin();
  }

  /** A letter missing from the device table and a code missing from the action table. */
  lemma ExampleUnknownDevice(line: string)
    requires line == "0000000000000Q9XYZ"
    ensures DecodedLine(line) == Ok("(0000000000000Q9XYZ) 0.00s UNKNOWN 9 XYZ")
  {
    ZeroTimeField(line);
    ExampleUnknownDeviceFields(line);
    DecodedFromParts(line, 0, 15);
    TimeRenderingExamples();
    ExampleUnknownDeviceText();
  }

  lemma ExampleShortLine()
    ensures DecodedLine("ABC") == Ok("ABC")
  {
  }

  lemma ExampleBadTime()
    ensures DecodedLine("2000000000000P12EX1")
         == Err(InvalidTimeField("2000000000000", FormatError))
  {
    var line := "2000000000000P12EX1";
    assert !IsBlank(line) by { assert !IsWhiteSpace(line[0]); }
    assert line[..TimeLength] == "2000000000000";
    assert !IsBinaryDigit(line[..TimeLength][0]);
  }

  // ---------------------------------------------------------------------------
  // The single-line decoder
  // ---------------------------------------------------------------------------

  /** `TokenDecoder.DecodeLine`: an `Err` result is the exception it raises. */
  method DecodeLine(line: string) returns (r: Result<string, DecodeError>)
    ensures r == DecodedLine(line)
  {
    if IsBlank(line) || |line| < MinRecordLength {
      return Ok(line);
    }
    var timeBinary := line[..TimeLength];
    var timeValue := ToInt32Base2(timeBinary);
    if timeValue.Err? {
      return Err(InvalidTimeField(timeBinary, timeValue.error));
    }
    var deviceChar := line[DeviceIndex];
    var device := if deviceChar in Devices then Devices[deviceChar] else UnknownDevice;
    var portEnd := PortStart;
    while portEnd < |line| && IsDigit(line[portEnd])
      invariant PortStart <= portEnd <= |line|
      invariant DigitRunEnd(line, portEnd) == DigitRunEnd(line, PortStart)
    {
      portEnd := portEnd + 1;
    }
    var port := line[PortStart..portEnd];
    var actionCode := line[portEnd..];
    var action := if actionCode in Actions then Actions[actionCode] else actionCode;
    r := Ok(Render(line, Event(timeValue.value, device, port, action)));
  }

  // ---------------------------------------------------------------------------
  // The file decoder
  // ---------------------------------------------------------------------------

  /** The lines a file decode keeps: the non-blank ones, in order. */
  function Kept(lines: seq<string>): seq<string>
    decreases |lines|
  {
    if lines == [] then []
    else
      var last := lines[|lines| - 1];
      Kept(lines[..|lines| - 1]) + (if IsBlank(last) then [] else [last])
  }

  /** What `DecodeFile` returns for a file of `lines`: the decoded non-blank lines, or the
      exception of the first non-blank line that fails. */
  function DecodedFile(lines: seq<string>): Result<seq<string>, DecodeError>
    decreases |lines|
  {
    if lines == [] then Ok([])
    else
      var last := lines[|lines| - 1];
      match DecodedFile(lines[..|lines| - 1])
      case Err(error) => Err(error)
      case Ok(prev) =>
        if IsBlank(last) then Ok(prev)
        else
          match DecodedLine(last)
          case Err(error) => Err(error)
          case Ok(d) => Ok(prev + [d])
  }

  /** Keeping lines distributes over concatenation and keeps exactly the non-blank ones:
      an order-preserving filter. */
  lemma {:induction false} KeptAppend(a: seq<string>, b: seq<string>)
    ensures Kept(a + b) == Kept(a) + Kept(b)
    decreases |b|
  {
    if b == [] {
      assert a + b == a;
    } else {
      var init := b[..|b| - 1];
      assert (a + b)[..|a + b| - 1] == a + init;
      KeptAppend(a, init);
    }
  }

  lemma {:induction false} KeptMembers(lines: seq<string>)
    ensures forall x :: x in Kept(lines) <==> x in lines && !IsBlank(x)
    decreases |lines|
  {
    if lines != [] {
      var init := lines[..|lines| - 1];
      KeptMembers(init);
      assert lines == init + [lines[|lines| - 1]];
    }
  }

  /** Whether every non-blank line of `lines` decodes. */
  predicate AllKeptDecode(lines: seq<string>)
  {
    forall i :: 0 <= i < |lines| && !IsBlank(lines[i]) ==> DecodedLine(lines[i]).Ok?
  }

  /** A file decode succeeds exactly when every non-blank line decodes. */
  lemma {:induction false} DecodedFileOkIff(lines: seq<string>)
    ensures DecodedFile(lines).Ok? <==> AllKeptDecode(lines)
    decreases |lines|
  {
    if lines != [] {
      var init := lines[..|lines| - 1];
      var last := lines[|lines| - 1];
      DecodedFileOkIff(init);
      assert DecodedFile(lines).Ok? <==>
        DecodedFile(init).Ok? && (IsBlank(last) || DecodedLine(last).Ok?);
      assert forall i :: 0 <= i < |init| ==> init[i] == lines[i];
      assert AllKeptDecode(lines) <==>
        AllKeptDecode(init) && (IsBlank(last) || DecodedLine(last).Ok?);
    }
  }

  /** A successful file decode has one entry per non-blank line, in order, each the decoded
      line. */
  lemma {:induction false} DecodedFileContents(lines: seq<string>)
    requires DecodedFile(lines).Ok?
    ensures var out := DecodedFile(lines).value;
      |out| == |Kept(lines)| &&
      forall j :: 0 <= j < |out| ==> DecodedLine(Kept(lines)[j]) == Ok(out[j])
    decreases |lines|
  {
    if lines != [] {
      var init := lines[..|lines| - 1];
      var last := lines[|lines| - 1];
      assert DecodedFile(init).Ok?;
      DecodedFileContents(init);
      var prev := DecodedFile(init).value;
      var out := DecodedFile(lines).value;
      if IsBlank(last) {
        assert Kept(lines) == Kept(init) + [];
      } else {
        assert Kept(lines) == Kept(init) + [last];
        assert out == prev + [DecodedLine(last).value];
      }
    }
  }

  /** Line `i` is the first non-blank line that fails to decode, and fails with `error`. */
  predicate FirstFailure(lines: seq<string>, i: int, error: DecodeError)
  {
    && 0 <= i < |lines| && !IsBlank(lines[i])
    && DecodedLine(lines[i]) == Err(error)
    && forall j :: 0 <= j < i && !IsBlank(lines[j]) ==> DecodedLine(lines[j]).Ok?
  }

  /** A failing file decode reports the error of its first non-blank line that fails. */
  lemma {:induction false} DecodedFileErr(lines: seq<string>)
    requires DecodedFile(lines).Err?
    ensures exists i :: FirstFailure(lines, i, DecodedFile(lines).error)
    decreases |lines|
  {
    var init := lines[..|lines| - 1];
    var n := |lines| - 1;
    assert forall i :: 0 <= i < |init| ==> init[i] == lines[i];
    if DecodedFile(init).Err? {
      DecodedFileErr(init);
      var i :| FirstFailure(init, i, DecodedFile(init).error);
      assert FirstFailure(lines, i, DecodedFile(lines).error);
    } else {
      DecodedFileOkIff(init);
      assert FirstFailure(lines, n, DecodedFile(lines).error);
    }
  }

  /** Once a prefix of the file fails, so does the whole file, with the same error. */
  lemma {:induction false} DecodedFileErrExtends(lines: seq<string>, i: nat)
    requires i <= |lines| && DecodedFile(lines[..i]).Err?
    ensures DecodedFile(lines) == DecodedFile(lines[..i])
    decreases |lines| - i
  {
    if i < |lines| {
      assert lines[..i + 1][..i] == lines[..i];
      DecodedFileErrExtends(lines, i + 1);
    } else {
      assert lines[..i] == lines;
    }
  }

  /** Decoding a file one more line: the line is skipped, appended, or aborts the decode. */
  lemma DecodedFileSnoc(lines: seq<string>, line: string)
    ensures DecodedFile(lines + [line]) ==
      match DecodedFile(lines)
      case Err(error) => Err(error)
      case Ok(prev) =>
        if IsBlank(line) then Ok(prev)
        else
          match DecodedLine(line)
          case Err(error) => Err(error)
          case Ok(d) => Ok(prev + [d])
  {
    assert (lines + [line])[..|lines|] == lines;
  }

  lemma ExampleFile(record: string, blank: string, short: string)
    requires record == "0000000000000P12EX1" && blank == "" && short == "ABC"
    ensures DecodedFile([record, blank, short])
         == Ok(["(0000000000000P12EX1) 0.00s Pneumatic 12 Cylinder 1 Extend", "ABC"])
  {
    ExamplePneumaticExtend(record);
    assert !IsBlank(record) by { assert !IsWhiteSpace(record[0]); }
    var first := "(0000000000000P12EX1) 0.00s Pneumatic 12 Cylinder 1 Extend";
    assert DecodedFile([record]) == Ok([first]) by {
      DecodedFileSnoc([], record);
      assert [] + [record] == [record];
      assert DecodedFile([]) == Ok([]);
      assert [] + [first] == [first];
    }
    assert DecodedFile([record, blank]) == Ok([first]) by {
      DecodedFileSnoc([record], blank);
      assert [record] + [blank] == [record, blank];
    }
    assert !IsBlank(short) by { assert !IsWhiteSpace(short[0]); }
    assert DecodedLine(short) == Ok(short);
    DecodedFileSnoc([record, blank], short);
    assert [record, blank] + [short] == [record, blank, short];
    assert [first] + [short] == [first, short];
  }

  /** `TokenDecoder.DecodeFile` over the lines of the file: an `Err` result is the exception
      that aborts it. */
  method DecodeFile(lines: seq<string>) returns (r: Result<seq<string>, DecodeError>)
    ensures r == DecodedFile(lines)
  {
    var decodedLines: seq<string> := [];
    var i := 0;
    while i < |lines|
      invariant 0 <= i <= |lines|
      invariant DecodedFile(lines[..i]) == Ok(decodedLines)
    {
      var line := lines[i];
      assert lines[..i + 1][..i] == lines[..i];
      if IsBlank(line) {
        i := i + 1;
        continue;
      }
      var decoded := DecodeLine(line);
      if decoded.Err? {
        DecodedFileErrExtends(lines, i + 1);
        return Err(decoded.error);
      }
      decodedLines := decodedLines + [decoded.value];
      i := i + 1;
    }
    assert lines[..i] == lines;
    r := Ok(decodedLines);
  }
}
