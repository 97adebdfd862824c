# VEX IQ card log decoder — Dafny model

This project models the token decoder of the VEX IQ card application (class `TokenDecoder`
in `TokenManager.cs`). The robot controller writes one event per line:

    [13 binary digits: time in hundredths of a second][device letter][port digits][action code]

The decoder turns a line such as `0000000000000P12EX1` into
`(0000000000000P12EX1) 0.00s Pneumatic 12 Cylinder 1 Extend`, and a log file into the list
of its decoded non-blank lines.

Modules:

- `Results` (`results.dfy`): the `Result` datatype. An `Err` value stands for an exception
  the C# code lets escape.
- `Text` (`text.dfy`): the .NET behaviour the decoder relies on, written out:
  - `string.IsNullOrWhiteSpace` becomes `IsBlank`, with the exact character set of
    `char.IsWhiteSpace`;
  - the digit test;
  - `Convert.ToInt32(s, 2)` becomes `ToInt32Base2`. It raises `ArgumentException` on a
    leading `-`, accepts one leading `+`, and otherwise raises `FormatException` unless every
    character is `0` or `1`;
  - `(v / 100.0).ToString("F2")` becomes `Centiseconds`: exact integer arithmetic, the
    whole part, then `.`, then two digits.
  - Beside these, `BinaryValue` and its inverse `BinaryText` give the value of a binary
    numeral, and `DecimalText`/`DecimalValue` do the same for decimal ones.
- `TokenManager` (`token_manager.dfy`): the two read-only tables `Devices` (13 entries) and
  `Actions` (19 entries), and the layout constants.
  - Specification functions: `DecodedLine` for one line (through `ParseEvent` and `Render`),
    and `Kept` and `DecodedFile` for a file.
  - The methods `DecodeLine` and `DecodeFile` keep the source's loops: the `while` loop that
    advances `portEnd`, and the `foreach` loop with `continue` that appends to the result
    list. Each method is proved equal to its specification function.
  - The tables are `readonly`, never written, and the same in every instance. So they are
    module constants, and the decoder is not a class.

Behaviour of the code that is easy to misread:

- `DecodeFile` has no per-line exception handler. The first non-blank line whose time field
  is refused aborts the whole call with that line's error, and the lines decoded before it
  are lost (`DecodedFileErr`, `DecodedFileErrExtends`).
- `DecodeLine` raises an exception when `Convert.ToInt32` refuses the time field.
- `Convert.ToInt32(s, 2)` accepts a leading `+`. So a time field of `+` followed by twelve
  binary digits decodes, with a value below 4096. Every other character outside `0`/`1`
  makes decoding fail (`DecodeFailsIff`, `NonBinaryTimeFails`).
- The comment at TokenManager.cs:86 says the port has "1 or 2 digits", but the loop takes
  every consecutive digit, and possibly none. The model follows the loop (`DigitRunEnd`).

## Model

| member | source | states |
|---|---|---|
| `Text.BinaryValue` | TokenManager.cs:79 | the number a string of binary digits denotes, read left to right, is below 2 to the power of its length |
| `Text.BinaryValueOfText` | TokenManager.cs:79 | the value of the n-digit binary numeral of v is v |
| `Text.BinaryTextOfValue` | TokenManager.cs:79 | writing a binary string's value back on the same number of digits gives the string again |
| `Text.BinaryValueInjective` | TokenManager.cs:79 | two equal-length binary fields with equal values are the same field |
| `Text.BinaryValueAllOnes` | TokenManager.cs:78-79 | a field of all ones has value 2^n - 1 (8191 for the 13-digit time field) |
| `Text.BinaryValueAppend` | TokenManager.cs:79 | appending a digit to a base-2 numeral doubles its value and adds the digit |
| `Text.BinaryValueAllZeros` | TokenManager.cs:78-79 | a field of all zeros has value 0 |
| `Text.ToInt32Base2` | TokenManager.cs:79 | `Convert.ToInt32(s, 2)` succeeds exactly on binary digits after an optional `+`, gives their value (below 2^|s|), fails with the negative-number error on a leading `-` and with a format error otherwise |
| `Text.DecimalTextMeaning` | TokenManager.cs:101 | the whole-seconds part of the rendering denotes n and has no leading zero (it is the single digit `0` for n = 0) |
| `Text.CentisecondsMeaning` | TokenManager.cs:80-101 | the F2 rendering of v hundredths is a whole part without leading zeros (exactly `0` below one second), `.`, and exactly two digits, together denoting v |
| `TokenManager.TimeFieldBound` | TokenManager.cs:78-79 | every 13-digit binary time field has a value between 0 and 8191, and 8191 is 2^13 - 1 |
| `TokenManager.DigitRunEnd` | TokenManager.cs:87-92 | the port scan stops between its start and the end of the line, after digits only, at a non-digit or the end of the line |
| `TokenManager.DigitRunEndUnique` | TokenManager.cs:87-92 | any boundary with digits before it and a non-digit or the end after it is the one the scan finds |
| `TokenManager.PassThroughUnchanged` | TokenManager.cs:73 | a blank line, or one shorter than 15 characters, is returned unchanged |
| `TokenManager.DecodeFailsIff` | TokenManager.cs:73-79 | decoding fails exactly when the line is a record whose time field `Convert.ToInt32` refuses; the error carries the field and the cause |
| `TokenManager.NonBinaryTimeFails` | TokenManager.cs:78-79 | a record with a non-binary character in its time field fails, unless that character is a leading `+` |
| `TokenManager.DecodedRecord` | TokenManager.cs:78-101 | an accepted record decodes to the rendering of its event, whose time is the value of the field's binary digits, below 8192 |
| `TokenManager.DecodedDevice` | TokenManager.cs:83-84 | the device is the table's name for the letter at index 13, or exactly `UNKNOWN` when the letter is not in the table |
| `TokenManager.DecodedPortAction` | TokenManager.cs:86-99 | the first 14 characters, the port and the action code give back the line; the port is all digits, the code does not start with one, and the action is the code's description or the code itself |
| `TokenManager.PortActionSplitUnique` | TokenManager.cs:86-97 | splitting the text after the device letter into digits and a rest that does not start with a digit can be done in one way only, and the decoder finds it |
| `TokenManager.DecodedTime` | TokenManager.cs:78-80 | a time field of 13 binary digits gives their value as the time, at most 8191 |
| `TokenManager.ZeroTimeField` | TokenManager.cs:78-79 | a record whose 13 time characters are all `0` is not blank and has time 0 |
| `TokenManager.DocCommentTimeField` | TokenManager.cs:69-79 | a record whose time characters are `0001010101010` is not blank and has time 682 |
| `TokenManager.FullTimeField` | TokenManager.cs:78-79 | a record whose 13 time characters are all `1` is not blank and has time 8191 |
| `TokenManager.DecodedFromParts` | TokenManager.cs:71-101 | a record whose scan boundary and time value are known decodes to the rendering of those parts |
| `TokenManager.TimeRenderingExamples` | TokenManager.cs:101 | 8191, 0, 5 and 682 hundredths render as `81.91`, `0.00`, `0.05` and `6.82` |
| `TokenManager.ExampleDocComment` | TokenManager.cs:66-101 | the decoder's documented example `0001010101010P12EX1` decodes to `(0001010101010P12EX1) 6.82s Pneumatic 12 Cylinder 1 Extend` |
| `TokenManager.ExamplePneumaticExtend` | TokenManager.cs:66-101 | `0000000000000P12EX1` decodes to `(0000000000000P12EX1) 0.00s Pneumatic 12 Cylinder 1 Extend` |
| `TokenManager.ExampleMotorPressed` | TokenManager.cs:71-101 | `1111111111111M5PRS` decodes to `(1111111111111M5PRS) 81.91s Motor 5 Pressed` |
| `TokenManager.ExampleUnknownDevice` | TokenManager.cs:83-99 | `0000000000000Q9XYZ` decodes to `(0000000000000Q9XYZ) 0.00s UNKNOWN 9 XYZ` |
| `TokenManager.ExampleShortLine` | TokenManager.cs:73 | `ABC` is returned unchanged |
| `TokenManager.ExampleBadTime` | TokenManager.cs:79 | `2000000000000P12EX1` fails with a format error on its time field |
| `TokenManager.DecodeLine` | TokenManager.cs:71-102 | the method, with its port-scanning loop, returns exactly the specified decoding or error of the line |
| `TokenManager.KeptAppend` | TokenManager.cs:57-59 | the blank-line filter distributes over concatenation, so it keeps input order |
| `TokenManager.KeptMembers` | TokenManager.cs:57-59 | a line is kept exactly when it is in the input and is not blank |
| `TokenManager.DecodedFileOkIff` | TokenManager.cs:57-63 | a file decode succeeds exactly when every non-blank line decodes |
| `TokenManager.DecodedFileContents` | TokenManager.cs:57-63 | a successful file decode has one entry per non-blank line, in order, each that line's decoding |
| `TokenManager.DecodedFileErr` | TokenManager.cs:57-60 | a failing file decode reports the error of the first non-blank line that fails |
| `TokenManager.DecodedFileErrExtends` | TokenManager.cs:57-60 | once a prefix of the file fails, the whole file fails with the same error |
| `TokenManager.DecodedFileSnoc` | TokenManager.cs:57-61 | one more line is skipped when blank, appended when it decodes, and aborts the decode when it fails |
| `TokenManager.ExampleFile` | TokenManager.cs:52-64 | a record, a blank line and `ABC` decode to the record's decoding and `ABC`, in that order |
| `TokenManager.DecodeFile` | TokenManager.cs:52-64 | the method, with its skip-and-append loop, returns exactly the specified file decoding or the aborting error |

## Left out

- Reading the file (`File.ReadAllLines` and its I/O exceptions) is not modelled. `DecodeFile`
  takes the file's lines as a `seq<string>`.
- Null strings are not modelled: `IsNullOrWhiteSpace(null)` and a null return have no
  counterpart, and `File.ReadAllLines` never yields null.
- Floating point is not modelled. `timeValue / 100.0` with `F2` is replaced by exact
  integer rendering. This agrees for every value a 13-digit field can hold.
- `Text.Centiseconds` always uses `.` as the decimal separator. `F2` uses the current
  culture's separator, which may be `,`.
- `Text.IsDigit` accepts only ASCII `0`..`9`. `char.IsDigit` also accepts the other Unicode
  decimal digits, so a port of such digits is not modelled.
- Characters are Unicode scalar values, not UTF-16 code units. Line lengths and indices
  differ from C# for characters outside the Basic Multilingual Plane.
- `Text.ToInt32Base2` is modelled only for arguments of 1 to 31 characters, where overflow
  and 32-bit wrap-around cannot happen. The decoder always passes 13 characters.
- Exceptions are modelled as `Err` values. The model does not distinguish an exception
  raised inside `DecodeFile` from one raised inside `DecodeLine`.
- MainForm.cs is not part of this model: window layout, settings load and save, drive
  listing, file deletion, and filling the log box from `DecodeFile`. Its private
  `DecodeLine`, for a `P12PO:`-prefixed format, is never called.
- SplashForm.cs is not part of this model: an asynchronous start-up sequence with delays,
  drive detection and cross-thread calls.
- ThemeManager.cs is not part of this model: colour styling of the window controls.
