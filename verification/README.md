# g3log: a verified model

g3log is an asynchronous logger. This project models its six cores that carry real state or arithmetic, and
proves what each is for.

**The printf engine** (`src/format_string.cpp`). `FormatSpec` is the reference: specifications, the field a
conversion prints, and the unbounded text of a whole format. `FormatParser`, `IntegerConversion`, `Rounding`,
`FloatDigits`, `FloatConversion` and `Formatter` do what the C code does, on arrays, in place: the scanner, the
integer digits produced at the back of the 400-byte buffer, the float conversion with its copying from back to
front, its carry to the left and its trimming, the clipping output buffer. Each method is proved equal to the
reference. `Decimal`, `FloatText`, `FormatTheorems`, `SpecRoundTrip` and `WholeFormat` then say what the
reference means to a reader: integers parse back to the argument, floats denote the value rounded half up,
written specifications scan back, and every piece of a format keeps its place. `FloatReading` reads whole float
fields back, with `FloatValues` for what rounding to some place gives. `FieldLayout` says what every field looks like
character for character, and `FormatText` goes from the text of a format to the text of its output. `Deviations`
holds exact conditions and inputs where conversions leave the standard.
A `double` is an exact rational (sign, numerator, denominator) with at most 309 integer digits, or an infinity,
or not a number. An argument is a slot that can be fetched with any type.

**The delivery pipeline** (`src/logworker.cpp`, `src/g3log/*.hpp`). `Pipeline` is a step system: clients push
jobs, the worker runs them, sinks run theirs, destructors send a poison job and join. A run is any sequence of
enabled steps, so every interleaving is covered. `PipelineLifecycle`, `PipelineRouting`, `PipelineTheorems`,
`PipelineShutdown` and `PipelineProgress` prove what holds in every reachable state: exact delivery, order,
barriers, draining, no deadlock. `ClientCalls` is a reference that takes every call at once, in order; the pipeline
does what it does, as far as the worker has come. `LogWorker` holds the worker and its sinks as objects, each method proved to be
one step of that system. `ActiveObject` is the queue and the loop of a thread on their own, for every way in which
other threads push in between; `ThreadLoops` shows that the threads of the step system have run, when they end,
what that loop runs.

**The rotating file sink** (`src/filerotatesink.cpp`), **the signal dispositions**
(`src/crashhandler_unix.cpp`), **the time fractions** (`src/time.cpp`) and **the logger's initialisation**
(`src/g3log.cpp`): `FileRotateSink`, `CrashHandler`, `TimeFraction`, `LogInit`. Results of the operating system
(time, rename, creation and opening of files, earlier files, earlier signal actions) are parameters.

Where the code and its documentation differ, the model follows the code, and a lemma says when the two agree:

- `%g` picks its style from the value before rounding and with the precision cut to 39. It differs from C11
  section 7.21.6.1 exactly for values that round up to a power of ten across one of the two limits, and for values
  whose exponent lies between 39 and the precision asked for, unless rounding lifts them out of there
  (`StyleMatchesStandard`; inputs: `StyleDiffers`, `LongIntegerDiffers`).
- `%#.0o` of zero prints nothing, where C11 section 7.21.6.1 asks for one `0` (`OctalAlternate`, `OctalAlternateFails`).
- A precision above 39 is cut to 39, and zeros follow the converted text instead: behind the exponent of `%e` and
  of `%#g`, and behind `inf` and `nan`. Over all five conversions and all values, a field denotes the value rounded
  as asked for, or is the word, if and only if these zeros are harmless and stand for zeros (`FloatRoundTrip`).
  They are harmless exactly if the precision is at most 39, or it is `%g` without `#`, or the value is finite and
  printed without an exponent, or in `%e` rounds to one digit before the point (`FloatShown`; inputs:
  `ScientificAboveLimitFails`, `WordAboveLimitFails`, `GeneralAboveLimitFails`). They stand for zeros exactly if
  the value rounded as asked for ends in as many (`FewerPlacesSame`, `FixedAboveLimit`; inputs: `FixedLosesDigit`,
  `GeneralLosesDigits`, `ScientificLosesDigits`).
- A negative value loses its minus sign, which C11 section 7.21.6.1 keeps, exactly if it is zero, or if `%f` rounds
  it to zero (`SignLostExactly`).
- `hh` is read as `h`: the value printed is right exactly if the low 16 bits are in the range of the low 8
  (`DoubleShort`, `DoubleShortExactly`). `L` is skipped. The letters `j`, `z`, `t`, `a`, `A` and `F` are unknown and
  print themselves (`UnknownLetter`).
- `%#g` prints one digit more than its precision, cut to 39, exactly for zero and, in fixed style, for values at
  most half a unit of the last place below a power of ten (`GeneralAlternateFixed`; inputs: `AlternateZero`,
  `AlternateCarry`).
- The comment on `tz_vsnprintf` first says that it returns the number of characters copied; it returns the
  length of the unbounded output. The two agree exactly if the buffer is larger than the output, or the output is
  empty (`ClipPrefix`).
- A format throws exactly if it asks for a fraction and the time is before the epoch by a tenth of a second or
  more beyond full seconds (`ExpandThrowsExactly`; input: `FormatThrows`).
- Installing the crash handler keeps the original actions exactly if no signal is hooked already
  (`InstallConserves`, `HookedTwiceSticks`).
- Before the first initialisation the fatal hook is an empty function. A fatal message then throws, in place of the
  message that `pushFatalMessageToLogger` prepares; the process lives on exactly if a client catches that
  (`FatalRunsHookOnce`).
- A sink that may not reopen its file keeps no further message. The log is complete exactly as long as no
  reopening is refused when it is needed (`Save`).
- A change to another log continues the order of the messages if and only if the new log holds none, was not left
  before and is not named like an archive (`Switch`; input: `LeaveAndReturn`).
- A direct call of a sink is no barrier in message order. A message is delivered ahead of it if and only if the
  worker had run its save before the call (`DirectCallPlace`; shortest input: `DirectCallOvertakes`).

## Model

| member | source | states |
|---|---|---|
| Formatter.Vsnprintf | src/format_string.cpp:1222-1242 | For every format, argument list and count: returns the length of the unbounded output; the buffer holds as much of it as fits, then a NUL, then its old bytes; with count 0 it is untouched |
| Formatter.FioFormat | src/format_string.cpp:642-1194 | The loop over a format puts out exactly the pieces of the format and counts every character, also those that did not fit |
| Formatter.ClipPrefix | src/format_string.cpp:581-639 | Outputs for different counts are prefixes of each other, as long as the count and the NUL allow; everything is received if and only if the count is above the length, or there is nothing |
| Formatter.OutBuf.Put | src/format_string.cpp:599-639 | Appends what fits and keeps the last byte free; the unbounded text grows by all of it |
| Formatter.OutBuf.Pad | src/format_string.cpp:131-143 | Exactly max(0, n) copies, although they are sent in chunks of 16 |
| Formatter.OutBuf.PutField | src/format_string.cpp:1148-1189 | One field: blanks, prefix, zeros, precision zeros, body, leftover zeros, blanks |
| Formatter.Convert | src/format_string.cpp:834-1113 | Every conversion letter yields its field, unknown letters print themselves |
| Formatter.MakeFloat | src/format_string.cpp:1033-1101 | The slice of the buffer taken after the conditional `cp++` is exactly the produced text; infinities and NaN included |
| Formatter.MakeInteger | src/format_string.cpp:966-1026 | Prefix, sign, precision and flags of an integer field, whatever the base |
| Formatter.MakeSigned | src/format_string.cpp:844-854 | Negative values print their magnitude and a minus sign, the most negative one included |
| Formatter.PutConversion | src/format_string.cpp:856-869 | `%n` stores the length so far and prints nothing; every other conversion adds the length of its field to the count |
| Formatter.ReadLiteral | src/format_string.cpp:690-707 | Stops at the first `%` or at the terminator |
| WholeFormat.PieceInPlace | src/format_string.cpp:687-703 | Each piece's text stands right behind the text before it for good, and `%n` stores the unbounded length in front of it |
| WholeFormat.OneDirective | src/format_string.cpp:735-835 | A format made of one written specification prints that specification's field |
| WholeFormat.IntegerEndToEnd | src/format_string.cpp:841-1026 | Specification written out, scanned, printed, and read back: the argument, for every specification, integer conversion and argument |
| WholeFormat.FloatEndToEnd | src/format_string.cpp:1033-1101 | The same for floats: the value rounded to all digits asked for, or the word, is read back if and only if the zeros for a precision above 39 are harmless and stand for zeros |
| FormatText.OrdinaryText | src/format_string.cpp:690-707 | A format without `%` prints itself |
| FormatText.DirectiveInText | src/format_string.cpp:687-1194 | For every text without `%`, written specification, letter and rest: the text, then the field of the first argument, then what the rest prints with the arguments that are left |
| FormatText.ConversionInText | src/format_string.cpp:687-1194 | The same for every specification that the scanner takes |
| FormatText.UnfinishedText | src/format_string.cpp:1104-1107 | A format that ends inside a specification prints what stands before it |
| FormatText.LonePercent | src/format_string.cpp:1104-1107 | A lone `%` at the end prints nothing |
| FormatText.StarWidth | src/format_string.cpp:751-763 | `*` takes the first argument as the width, and its minus sign as the flag; the conversion takes the second |
| FormatText.StarPrecision | src/format_string.cpp:769-776 | `.*` takes the first argument as the precision, none if it is negative |
| FormatText.SignFlags | src/format_string.cpp:740-767 | A blank and a plus in any order are a plus |
| FormatText.PiecesBehind | src/format_string.cpp:687-835 | A format behind another means what it means alone, with later arguments |
| FieldLayout.WidthPads | src/format_string.cpp:1148-1192 | For every conversion, a width pads the text printed without one: blanks behind it with `-`, zeros behind its prefix where `0` applies, blanks in front otherwise |
| FieldLayout.PrefixPrinted | src/format_string.cpp:841-963 | Which sign or prefix is printed, for every conversion, flag and value |
| FieldLayout.IntegerLayout | src/format_string.cpp:966-1026 | Without a width an integer field is its prefix and digits: as many as the precision, no superfluous zero, none for 0 with precision 0, one in front for `%#o`, letters in the case of the conversion |
| FieldLayout.ArgumentMeaning | src/format_string.cpp:118-129 | The value printed is the argument cut to 16, 32 or 64 bits, signed or unsigned, as letter and modifiers say |
| FieldLayout.TextLayout | src/format_string.cpp:834-935 | `%c` prints one byte; `%s` the longest front of the string that the precision allows |
| FieldLayout.FixedLayout | src/format_string.cpp:348-380 | `%f`: no superfluous zero, exactly the fraction digits asked for, a point if and only if there are any or `#` was given |
| FieldLayout.FixedField | src/format_string.cpp:1038-1047 | The same for the field, with six digits by default, and zeros above 39 |
| FieldLayout.PointPrinted | src/format_string.cpp:357-358 | A point is in the field of `%f` and `%e` if and only if the precision is not zero or `#` was given |
| FieldLayout.ScientificLayout | src/format_string.cpp:382-480 | `%e`: one digit, the fraction digits, the same rule for the point, and letter, sign and at least two digits of exponent, no more than needed |
| FieldLayout.GeneralFixedLayout | src/format_string.cpp:506-571 | `%g` in fixed style: a point always with `#`, otherwise exactly with a fraction, which does not end in a zero |
| FieldLayout.GeneralScientificLayout | src/format_string.cpp:448-503 | `%g` in exponent style: the same, and the letter of the conversion |
| FormatSpec.ScanSpec | src/format_string.cpp:735-835 | A scan ends before the terminator and has consumed a character |
| FormatSpec.ScanItem | src/format_string.cpp:737-832 | Every flag, width, precision or length consumes at least one character and never the terminator |
| FormatSpec.Field.TextLength | src/format_string.cpp:1128-1192 | A field has exactly max(width, content) characters |
| FormatParser.ReadSpec | src/format_string.cpp:735-835 | The scanner loop ends on every NUL-terminated format and computes the reference scan |
| FormatParser.ReadItem | src/format_string.cpp:737-832 | One turn of the scanner's switch |
| FormatParser.ReadNumber | src/format_string.cpp:778-814 | Reads the longest run of digits and its decimal value |
| SpecRoundTrip.SpecReadsBack | src/format_string.cpp:735-835 | Every specification written in the standard's order is scanned back as itself, wherever it stands |
| SpecRoundTrip.NumeralAt | src/format_string.cpp:798-815 | A written number is read back whole and never starts with the flag `0` |
| IntegerConversion.ConvertInteger | src/format_string.cpp:966-1024 | At most 23 characters at the back of the buffer: the digits in the base, nothing for 0 with precision 0, a leading 0 for `%#o` |
| IntegerConversion.DigitsToBack | src/format_string.cpp:982-1013 | The digit loop leaves the shortest numeral at the end of the buffer |
| IntegerConversion.SignedMeaning | src/format_string.cpp:119-123 | Truncation keeps the residue and lands in the range of the type |
| IntegerConversion.WordNumeral | src/format_string.cpp:979-1013 | A 64-bit value has at most 22 digits in any of the three bases |
| IntegerConversion.IntegerBodyRoundTrip | src/format_string.cpp:966-1024 | The body consists of digits of the base and denotes the value |
| FormatTheorems.IntegerRoundTrip | src/format_string.cpp:841-1026 | Stripping pads and prefix from the field of any integer conversion and reading it in its base gives the truncated argument |
| FormatTheorems.IntegerFieldParts | src/format_string.cpp:1148-1189 | An integer field is blanks, prefix, digits, blanks, with blanks on one side only; with a precision there are exactly max(precision, natural) digits |
| FormatTheorems.IntegerFieldRoundTrip | src/format_string.cpp:1128-1192 | No combination of flags, width and precision changes the value read back |
| FormatTheorems.SignedFieldRoundTrip | src/format_string.cpp:844-854 | Signed fields read back with their sign |
| FormatTheorems.UnsignedFieldRoundTrip | src/format_string.cpp:940-963 | Unsigned fields read back, with or without the 0x prefix |
| FormatTheorems.ScanKeepsSign | src/format_string.cpp:740-767 | Scanning yields no sign flag but none, blank or plus |
| FormatTheorems.FixedConversion | src/format_string.cpp:348-380 | `%f` denotes x rounded half up with exactly the asked fraction digits; the minus sign is dropped exactly when all digits are zero |
| FormatTheorems.ScientificConversion | src/format_string.cpp:382-480 | `%e` prints a significand in [1, 10) of the asked digits and an exponent of at least two digits that together are x rounded half up |
| FormatTheorems.ScientificIsRounded | src/format_string.cpp:382-446 | Significand and exponent are the rounded value, the all-nines carry included |
| FormatTheorems.GeneralFixedConversion | src/format_string.cpp:482-571 | `%g` in fixed style denotes x rounded to the significant digits; trimming changes no value and leaves neither a fraction zero nor a bare point |
| FormatTheorems.GeneralScientificConversion | src/format_string.cpp:448-503 | `%g` in exponent style: the same for the significand |
| FormatTheorems.StyleMatchesStandard | src/format_string.cpp:488-494 | For every precision asked for, the style agrees with the standard except exactly for values that round up to a power of ten at a limit, and for exponents between 39 and the precision that rounding does not lift out of there |
| FormatTheorems.StyleByExponent | src/format_string.cpp:493 | The test of the code is a test of the decimal exponent of the unrounded value |
| FormatTheorems.StyleDiffers | src/format_string.cpp:493 | 999999.5 is such a value |
| FormatTheorems.LongIntegerDiffers | src/format_string.cpp:1040-1045 | `%.45g` of 2^140, which the standard prints in full |
| FormatTheorems.OctalAlternate | src/format_string.cpp:970-990 | `%#o` starts with a zero except exactly for 0 with precision 0 |
| FormatTheorems.OctalAlternateFails | src/format_string.cpp:973-990 | That case prints nothing |
| FormatTheorems.LargePrecisionExponent | src/format_string.cpp:1040-1045 | For `%e` alone: above precision 39 the printed exponent is multiplied by a power of ten, harmless exactly for exponent 0 |
| FloatReading.FloatRoundTrip | src/format_string.cpp:1033-1101 | For all five conversions, all flags, widths and precisions, and finite values, infinities and NaN: stripping pads and sign from the field and reading it gives the value rounded half up to the place asked for, or the word, if and only if the zeros for a precision above 39 are harmless and stand for zeros |
| FloatReading.FloatExact | src/format_string.cpp:1033-1101 | Up to precision 39 it does without any condition |
| FloatReading.FloatShown | src/format_string.cpp:1033-1101 | The same with the precision cut to 39: if and only if the zeros are harmless |
| FloatReading.MoreDigits | src/format_string.cpp:1040-1045 | Above precision 39 a value is the one asked for exactly if no digit was lost and no exponent spoilt |
| FloatReading.HarmfulExponent | src/format_string.cpp:1040-1045 | Zeros behind an exponent other than zero never give the value asked for, whatever the digits |
| FloatReading.OneDigitExactly | src/format_string.cpp:382-446 | The printed exponent is zero exactly if x is zero or lies in the interval that rounds to one digit before the point |
| FloatValues.FewerPlacesSame | src/format_string.cpp:1040-1045 | For places on both sides of the point: rounding to fewer places is rounding to more exactly if the digits between are zeros |
| FloatValues.RoundedValueAt | src/format_string.cpp:382-571 | In every style, digits and exponent are x rounded half up to the place asked for |
| FloatReading.ReadPlain | src/format_string.cpp:348-480 | `%f` and `%e` behind any zero padding and in front of any left-over zeros |
| FloatReading.ReadGeneral | src/format_string.cpp:482-571 | `%g` in both styles, with and without `#` |
| FloatReading.ReadWord | src/format_string.cpp:1055-1079 | `inf` and `nan` read as themselves exactly with no zeros behind them |
| FloatReading.GeneralExponent | src/format_string.cpp:493-503 | The exponent of `%g` in exponent style is never zero |
| Deviations.FixedAboveLimit | src/format_string.cpp:1040-1045 | `%f` above precision 39 denotes x rounded to 39 fraction digits; that is x rounded to all of them exactly if the others are zeros |
| Deviations.FixedLosesDigit | src/format_string.cpp:1040-1045 | 10^-40 is a value for which they are not |
| Deviations.GeneralLosesDigits | src/format_string.cpp:1040-1045 | `%.45g` of 2^-60 |
| Deviations.ScientificLosesDigits | src/format_string.cpp:1040-1045 | `%.45e` of 1 + 2^-50 |
| Deviations.ScientificAboveLimitFails | src/format_string.cpp:1042-1043 | `%.40e` of 10 |
| Deviations.WordAboveLimitFails | src/format_string.cpp:1055-1064 | `%.45f` of infinity prints `inf000000` |
| Deviations.GeneralAboveLimitFails | src/format_string.cpp:1042-1043 | `%#.40g` of 10^-5 |
| Deviations.GeneralAlternateFixed | src/format_string.cpp:506-564 | `%#g` in fixed style denotes x rounded half up, with exactly the digits of its precision if and only if x is not zero and lies more than half a unit of the last place below the next power of ten |
| Deviations.GeneralAlternateScientific | src/format_string.cpp:448-503 | `%#g` in exponent style always has exactly the digits asked for |
| Deviations.AlternateZero | src/format_string.cpp:516-564 | Zero to six digits prints seven |
| Deviations.AlternateCarry | src/format_string.cpp:555-564 | 9.9999996 to six digits prints seven |
| Deviations.SignLostExactly | src/format_string.cpp:213-227 | The minus sign is lost exactly for zero, and for values that `%f` rounds to zero |
| Deviations.DoubleShort | src/format_string.cpp:817-819 | `hh` is `h` |
| Deviations.DoubleShortExactly | src/format_string.cpp:119-123 | It prints the right value exactly for low 16 bits in the range of the low 8 |
| Deviations.UnknownLetter | src/format_string.cpp:1104-1113 | Letters of later standards print themselves |
| FloatText.ScientificMeaning | src/format_string.cpp:382-446 | The reference significand has exactly prec + 1 digits and is the rounded value |
| FloatText.SignificandRange | src/format_string.cpp:382-446 | Rounding to prec + 1 digits reaches the next power of ten at most |
| FloatText.ExponentIsLogarithm | src/format_string.cpp:403-414 | The counted exponent is the floor of the decimal logarithm |
| FloatText.ExponentTextMeaning | src/format_string.cpp:240-279 | The exponent text parses back, has a sign and at least two digits, and fits for magnitudes below 10^4 |
| FloatText.ShortTextMeaning | src/format_string.cpp:448-456 | Dropping fraction zeros and then a bare point keeps the value |
| FloatText.GeneralFractionNat | src/format_string.cpp:493-545 | Fixed style of `%g` never asks for more than precision + 3 fraction digits |
| FloatConversion.Cvt | src/format_string.cpp:288-578 | Inside the 400-byte buffer, for every finite value below 10^309 and precision up to 39: the reference text stands at the returned place, with the reference sign |
| FloatConversion.FixedDigits | src/format_string.cpp:348-380 | The `%f` case in place |
| FloatConversion.IntegerToFront | src/format_string.cpp:349-355 | Copying the integer digits to the front never overwrites one before it is read |
| FloatConversion.CvtScientific | src/format_string.cpp:382-480 | The `%e` case in place |
| FloatConversion.ScientificInteger | src/format_string.cpp:385-404 | A value with integer digits, rounded inside them or behind the point |
| FloatConversion.ScientificFraction | src/format_string.cpp:406-446 | A proper fraction; the search for the first digit ends |
| FloatConversion.RoundInsideInteger | src/format_string.cpp:397-402 | Rounding by the next integer digit, ignoring the fraction, is rounding the value |
| FloatConversion.RoundFixed | src/format_string.cpp:369-377 | Rounding by the first dropped digit is rounding the value, the carry into the spare slot included |
| FloatConversion.CvtGeneral | src/format_string.cpp:482-571 | The `%g` case in place, both styles |
| FloatConversion.GeneralFixed | src/format_string.cpp:506-571 | Fixed style with its leading zeros rolled out and its zeros trimmed or kept |
| FloatDigits.IntegerToBack | src/format_string.cpp:338-344 | The integer part's digits at the end of the buffer, none for zero |
| FloatDigits.FractionDigits | src/format_string.cpp:362-367 | Digit generation keeps: digits so far and remainder make up the value |
| FloatDigits.LeadingFraction | src/format_string.cpp:531-543 | Leading zeros of a fraction up to its first significant digit |
| FloatDigits.FirstSignificant | src/format_string.cpp:408-416 | The search for the first significant digit ends and counts the exponent |
| FloatDigits.TrimZeros | src/format_string.cpp:566-571 | Trimming in place drops fraction zeros and a bare point, never an integer digit |
| Rounding.RoundCvt | src/format_string.cpp:165-230 | Rounds decimal text in place, and clears the sign exactly when only zeros are left |
| Rounding.Increment | src/format_string.cpp:182-210 | Adding one in the last place across points and nines, into a new digit or a larger exponent |
| Rounding.CarryOut | src/format_string.cpp:182-205 | All nines become a one and zeros |
| Rounding.FixedTextZeroIff | src/format_string.cpp:213-227 | Text shows only zeros exactly when its number is zero |
| Rounding.ExponentCvt | src/format_string.cpp:240-279 | Writes the exponent text through the four-byte scratch buffer |
| Decimal.IncFixedText | src/format_string.cpp:182-210 | The carry on text adds one to the number |
| Decimal.HalfUpByRemainder | src/format_string.cpp:177-182 | Looking at the remainder decides half-up rounding |
| Decimal.NumeralRoundTrip | src/format_string.cpp:979-1013 | A numeral in any base reads back and has no leading zero |
| ActiveObject.Active.Run | src/g3log/active.hpp:36-42 | However other threads push in between, the thread's loop runs exactly the jobs up to the one that ends it, in order, and leaves those behind |
| ActiveObject.Active.Destroy | src/g3log/active.hpp:49-62 | The destructor returns after every job sent before has run, in order; jobs sent by others behind its own never run |
| ActiveObject.UpToQuit | src/g3log/active.hpp:36-42 | The jobs up to and including the first that ends the loop |
| SharedQueue.SharedQueue.Push | src/g3log/shared_queue.hpp:39-45 | Appends at the back |
| SharedQueue.SharedQueue.TryAndPop | src/g3log/shared_queue.hpp:48-56 | Takes the front item, or nothing from an empty queue |
| SharedQueue.SharedQueue.WaitAndPop | src/g3log/shared_queue.hpp:59-85 | Waits through empty wake-ups and takes the first item ever pushed; nothing is lost or reordered |
| ThreadLoops.SinkThread | src/g3log/active.hpp:36-62 | A sink's thread that has ended has run what the loop of an active object runs of all that was ever sent |
| ThreadLoops.WorkerThread | src/g3log/active.hpp:36-62 | The same for the worker's thread |
| LogWorker.Worker.SendToSinks | src/logworker.cpp:23-35 | The loop of `bgSave` and `bgFatal` gives each registered sink one copy and touches no other |
| LogWorker.Worker.EraseSink | src/g3log/logworker.hpp:138-149 | Erase-remove keeps the other sinks in their order |
| LogWorker.Worker.RunNext | src/logworker.cpp:23-95 | One job of the worker, as the step system has it |
| LogWorker.Worker.CloseSink | src/g3log/sink.hpp:68-70 | A dropped reference destroys the sink exactly if nobody else owns it |
| LogWorker.Worker.Do | src/logworker.cpp:97-140 | Every action of every thread is a step of the step system and keeps ownership, history and routing |
| PipelineLifecycle.LifecycleStep | src/logworker.cpp:60-126 | Every step keeps: a sink is open exactly while owned or being dropped, and its poison job is pushed once, last |
| PipelineLifecycle.LifecycleRun | src/logworker.cpp:60-126 | So does every run |
| PipelineLifecycle.ForwardExact | src/logworker.cpp:26-35 | Forwarding adds one copy to each listed sink and none to the others |
| PipelineLifecycle.RunJobKeeps | src/logworker.cpp:23-95 | No job of the worker is sent to a destroyed sink |
| PipelineLifecycle.CloseNextKeeps | src/g3log/sink.hpp:68-70 | Dropping references destroys each sink at most once |
| PipelineRouting.HistoryStep | src/g3log/active.hpp:36-42 | The worker runs jobs in the order of pushing; a fatal message or the poison job is the last |
| PipelineRouting.RoutingStep | src/logworker.cpp:23-35 | Every step keeps: each sink has got exactly what the executed jobs routed to it |
| PipelineTheorems.DeliveredExactly | src/logworker.cpp:23-35 | In every reachable state, delivered jobs and the sink's queue are exactly the jobs routed to it: no loss, no duplicate |
| PipelineTheorems.DeliveredInPushOrder | src/g3log/active.hpp:36-66 | A sink's messages are those pushed at increasing positions, exactly the ones run while it was registered: all sinks and all producers see one order |
| PipelineTheorems.SinksAgree | src/logworker.cpp:26-35 | Two sinks registered through a stretch of jobs get the same messages from it, all of them, in the same order |
| PipelineTheorems.HotUpdateBarrier | src/g3log/logworker.hpp:163-177 | A hot update stands between the messages saved before it and those saved after it |
| PipelineTheorems.JobsGrow | src/g3log/shared_queue.hpp:39-45 | A sink's jobs, and what it has run, only ever grow at the end |
| PipelineTheorems.Always | src/logworker.cpp:23-140 | Ownership, history and routing hold in every reachable state |
| PipelineTheorems.FatalText | src/logworker.cpp:60-76 | A fatal message begins with what the client wrote and names the level and then the reason |
| ClientCalls.SequentialView | src/logworker.cpp:23-140 | In every state of every run, registration and what has come through to each sink are those of the reference that takes every call at once, after some of the calls, from the first on |
| ClientCalls.IdleView | src/logworker.cpp:23-140 | Whenever the worker's queue is empty, after all of them |
| ClientCalls.StaysRegistered | src/g3log/logworker.hpp:97-189 | A registered sink stays so, and gets every later message and hot update, as long as no call removes it, clears, or is fatal |
| ClientCalls.RemoveOnlyOne | src/g3log/logworker.hpp:131-149 | Removing a sink removes that one and no other |
| ClientCalls.OtherCalls | src/g3log/logworker.hpp:97-189 | Clearing and a fatal message remove all; adding adds the new sink; no other call changes the list |
| ClientCalls.SinkView | src/g3log/sink.hpp:68-85 | In every state of every run a sink is held as often as taken less let go, its thread has run one job a turn, and its direct calls are those made, in order |
| ClientCalls.PushedAre | src/logworker.cpp:128-140 | The worker's queue receives exactly the jobs of the calls |
| PipelineShutdown.DrainOnReturn | src/g3log/logworker.hpp:131-189 | When the worker is between jobs or exits, a sink is open exactly while it is in the list, held by a client, or kept by a queued job that adds or updates it; and every sink the worker dropped last is drained |
| PipelineShutdown.DroppedSinkIsFlushed | src/g3log/logworker.hpp:131-158 | A sink nobody else owns, dropped by removal, clearing or a fatal message, has delivered everything routed to it once that job is done, however the run goes |
| PipelineShutdown.FatalFlushed | src/logworker.cpp:60-91 | At the exit call such a sink has delivered every earlier message of its registration, and the fatal message last |
| PipelineShutdown.WorkerDrained | src/logworker.cpp:97-126 | At the end of the worker exactly the jobs pushed before the poison job have run |
| PipelineShutdown.StoppedIsDrained | src/g3log/sink.hpp:68-70 | A sink's thread has ended exactly if it has delivered everything and its queue is empty |
| PipelineShutdown.DirectCallOrder | src/g3log/sink.hpp:82-85 | A direct call comes right behind the jobs already in the sink |
| PipelineShutdown.DirectCallPlace | src/g3log/sink.hpp:82-85 | In every state and however the run goes on, it stands behind exactly what the jobs the worker had run routed to the sink, and in front of exactly what later ones do |
| PipelineShutdown.DirectCallOvertakes | src/g3log/sink.hpp:82-85 | The shortest run in which a message saved before the call comes behind it |
| PipelineProgress.Progress | src/g3log/active.hpp:36-62 | While work is left some consumer can take a step, also while the worker waits for a join |
| PipelineProgress.ConsumerStepDecreases | src/logworker.cpp:23-95 | Each such step strictly decreases a measure that weighs worker jobs by what they can spawn |
| PipelineProgress.ConsumersFinish | src/g3log/active.hpp:36-62 | Consumers alone take at most that many steps |
| PipelineProgress.Settles | src/g3log/logworker.hpp:183-189 | They bring every state to rest, so every join returns |
| FileRotateSink.RotatingSink.Save | src/filerotatesink.cpp:181-203 | Archives in number order and then the live file hold the recorded messages once, in order; a message is recorded exactly if the stream has a file, which it keeps while no needed reopening is refused. Up to the limit nothing is put aside; above it the live file is, exactly if it can be renamed, and its content is the archive's; live size at most max(limit, header and banner) plus the message while rotations succeed |
| FileRotateSink.RotatingSink.RotateLog | src/filerotatesink.cpp:104-146 | A rotation adds a header and a banner to the log or nothing, in all its failing branches |
| FileRotateSink.RotatingSink.CloseAndRename | src/filerotatesink.cpp:112-126 | A successful rename turns the live file into the next archive; a failed one only uses up a number |
| FileRotateSink.RotatingSink.ChangeLogFile | src/filerotatesink.cpp:65-96 | For every directory and name, open or closed: goes on in that log behind what it holds, with a header and its size counted anew, or complains in the live file and changes nothing else |
| FileRotateSink.RotatingSink.Switch | src/filerotatesink.cpp:65-96 | A client's change of the log keeps the whole log in order if and only if it is refused, or the log is the same, or one that holds no message, was not left before and is not named like an archive |
| FileRotateSink.RotatingSink.LeaveAndReturn | src/filerotatesink.cpp:65-96 | After a change and a change back, neither order of the two files is the order of saving |
| FileRotateSink.RotatingSink.Leave | src/filerotatesink.cpp:88-91 | Replacing the stream passes the old buffer on to the old file and disturbs no other |
| FileRotateSink.RotatingSink.StartNext | src/filerotatesink.cpp:128-138 | The new file starts with header and banner, or the old name is opened again |
| FileRotateSink.RotatingSink.SetLogSizeCounter | src/filerotatesink.cpp:152-178 | The size of what the file holds, nothing left in the buffer |
| FileRotateSink.RotatingSink.WriteWithoutRotate | src/filerotatesink.cpp:189-194 | Appends to an open file, counts the size in any case, keeps at most policy - 1 writes unflushed |
| FileRotateSink.RotatingSink.ApplyFlushPolicy | src/filerotatesink.cpp:206-212 | Flushes at every policy-th write, never with policy 0 |
| FileRotateSink.RotatingSink.SetFlushPolicy | src/filerotatesink.cpp:215-219 | Flushes, restarts the count, and changes no log |
| FileRotateSink.RotatingSink.Flush | src/filerotatesink.cpp:222-227 | Moves the buffer to the file and changes no log |
| FileRotateSink.RotatingSink.SetMaxLogSize | src/filerotatesink.cpp:268-270 | Changes the limit and no log |
| FileRotateSink.RotatingSink.Create | src/filerotatesink.cpp:21-48 | Starts behind what the file already holds, and stops the program exactly if the prefix is refused or, with assertions compiled in, the log cannot be opened |
| FileRotateSink.PrefixNotArchive | src/filerotatesink.cpp:36-45 | The log of a sanitised prefix is never named like an archive |
| FileRotateSink.SanityKeeps | src/filerotatesink.cpp:36-42 | A legal prefix is taken as it is |
| FileRotateSink.SanityDrops | src/filerotatesink.cpp:36-42 | Dropped characters in a prefix make no difference |
| FileRotateSink.SanityRefuses | src/filerotatesink.cpp:36-42 | A prefix is refused exactly if it holds an illegal character or nothing but dropped ones |
| FileRotateSink.LogInDirectory | src/filerotatesink.cpp:71-76 | A log lies in its directory, or where the program is if that is empty |
| FileRotateSink.DirectoryEnd | src/filerotatesink.cpp:71-76 | Slashes and blanks at the end of the directory make no difference |
| FileRotateSink.DirectorySlashes | src/filerotatesink.cpp:71-76 | Nor does the kind of slash |
| FileRotateSink.ArchiveBesideLog | src/filerotatesink.cpp:114-119 | An archive's name goes on from its log's with time and number |
| FileRotateSink.TextsName | src/filerotatesink.cpp:82-138 | The banner names the archive, the complaint the log |
| FileRotateSink.ArchiveNamesDiffer | src/filerotatesink.cpp:114-118 | The number can be read back from an archive name, so different numbers give different names, whatever the clock says |
| FileRotateSink.VolumesDistinct | src/filerotatesink.cpp:112-122 | All archives and left logs of a sink have different names, none is the live file's, and none the next archive's |
| FileRotateSink.LivePutAside | src/filerotatesink.cpp:122 | Renaming overwrites no archive and moves the live content behind the others |
| CrashHandler.SignalsConserved | src/crashhandler_unix.cpp:301-396 | After one installation and any calls: our handler sits on exactly the signals with a saved action, those are wanted, every saved or other action is the original; after a restore to default nothing of ours is left |
| CrashHandler.RunConserves | src/crashhandler_unix.cpp:355-387 | Every run of overrides and restores conserves the actions |
| CrashHandler.InstallConserves | src/crashhandler_unix.cpp:140-163 | Installing conserves them if and only if no signal is already hooked |
| CrashHandler.HookedTwiceSticks | src/crashhandler_unix.cpp:156-161 | A signal hooked twice keeps our handler when it is restored |
| CrashHandler.OverrideConserves | src/crashhandler_unix.cpp:376-387 | An override hooks exactly the new catchable signals, or none when the set is the same |
| CrashHandler.DefaultsHooked | src/crashhandler_unix.cpp:42-50 | Installed at the start, our handler sits on exactly the five default signals |
| CrashHandler.OverrideHooks | src/crashhandler_unix.cpp:376-387 | After an override with other signals it sits on exactly those that can be caught, after one with the same nowhere |
| CrashHandler.RestoreConserves | src/crashhandler_unix.cpp:355-370 | A restored signal has its original action, and no other signal changes |
| CrashHandler.RestoreSetConserves | src/crashhandler_unix.cpp:379-381 | Restoring all wanted signals restores the whole table |
| CrashHandler.Globals.InstallSignalHandler | src/crashhandler_unix.cpp:140-163 | The loop over the wanted signals hooks the catchable ones and saves what it replaces |
| CrashHandler.Globals.RestoreSignalHandler | src/crashhandler_unix.cpp:355-370 | Puts one saved action back and forgets it |
| CrashHandler.Globals.OverrideSetupSignals | src/crashhandler_unix.cpp:376-387 | The loop restores all wanted signals, then installs the new ones unless nothing changed |
| CrashHandler.Globals.RestoreFatalHandlingToDefault | src/crashhandler_unix.cpp:329-333 | Afterwards every signal has its original action, so raising one again does not come back |
| TimeFraction.LocaltimeFormattedFractions | src/time.cpp:113-131 | The find-and-replace loop ends, though the string grows, with the result of one pass from left to right |
| TimeFraction.DigitRequest | src/time.cpp:55-131 | In any text, from the epoch on, `%f3` stands for three digits, the milliseconds, `%f6` for six, the microseconds, `%f9` for nine, the nanoseconds |
| TimeFraction.BareRequest | src/time.cpp:55-131 | `%f` in front of anything else stands for nine digits |
| TimeFraction.OrdinaryFormat | src/time.cpp:113-131 | Text without a request stays as it is |
| TimeFraction.NoIdentifierLeft | src/time.cpp:113-131 | The result contains no `%f` |
| TimeFraction.ExpandThrowsExactly | src/time.cpp:113-131 | For all times and formats: it throws if and only if the format asks for a fraction and the time lies before the epoch by a tenth of a second or more beyond full seconds |
| TimeFraction.ExpandSucceeds | src/time.cpp:113-131 | So from the epoch on formatting never throws |
| TimeFraction.FormatThrows | src/time.cpp:108-110 | `%f3` a tenth of a second before the epoch does |
| TimeFraction.FractionText | src/time.cpp:74-111 | From the epoch on each text has the exact width and denotes the fraction rounded down |
| TimeFraction.LengthErrorExactly | src/time.cpp:108-110 | For all times and kinds of fraction, the same condition for one conversion |
| TimeFraction.TooLongFraction | src/time.cpp:84-108 | That is when the fraction needs the whole width for its digits |
| TimeFraction.Find | src/time.cpp:117 | The first request at or behind a position |
| TimeFraction.ReplacedExpands | src/time.cpp:116-128 | One replacement keeps the outcome and leaves fewer percent signs to come |
| LogInit.KeptMessage | src/g3log.cpp:64-98 | Over any run: nothing is given out before the first initialisation; then the first earlier message, if any, comes first, once, to that worker, and no other uninitialised message ever does |
| LogInit.KeptText | src/g3log.cpp:243-249 | The kept message ends with the text logged |
| LogInit.InitializeExactly | src/g3log.cpp:69-79 | An initialisation ends the process exactly with an active worker or none given; otherwise that worker is active and the hook and its count are cleared |
| LogInit.ShutdownExactly | src/g3log.cpp:159-169 | Another worker's shutdown is refused, with exactly one warning to the active one; any other ends logging |
| LogInit.BeforeInitialize | src/g3log.cpp:239-252 | Without a worker only the first message is kept |
| LogInit.LogReachesActive | src/g3log.cpp:239-256 | A message goes to the worker of the last initialisation not shut down since, or to nobody |
| LogInit.StateOf | src/g3log.cpp:112-118 | Which worker, hook and count are in force follows from the calls made |
| LogInit.FatalRunsHookOnce | src/g3log.cpp:185-229 | A fatal message runs the hook in force once and disarms it, and tells of recursion exactly if there was one since the last initialisation; with an empty function for a hook it throws, caught or not, and is not sent |
| LogInit.Globals.InitializeLogging | src/g3log.cpp:64-98 | Hands over the kept message at most once, or ends the process |
| LogInit.Globals.PushMessageToLogger | src/g3log.cpp:239-256 | Gives the message to the worker, or keeps it if it is the first |
| LogInit.Globals.SaveFatal | src/g3log.cpp:185-229 | Swaps the hook out before running it, and sends the fatal message or ends the process |
| LogInit.Globals.ShutDownLogging | src/g3log.cpp:147-151 | Forgets the worker |
| LogInit.Globals.ShutDownLoggingForActiveOnly | src/g3log.cpp:159-169 | Refuses, with a warning to the active worker, exactly when another worker asks |

## Left out

- The collected copy of a specification in `fioFormat` (`FMT`, `Collect`) is written and never read.
- IEEE rounding inside `modf` and the products with ten: the model computes with exact rationals. So the `.01` slack and the test against `.0001` are exact.
- The mechanics of variadic arguments: a slot can be fetched with any type, and fetching behind the last argument reads zeros instead of being undefined.
- Overflow of the `int` variables for number, width, precision and returned length: they are unbounded. Negating the most negative 64-bit value is modelled by its magnitude, which is what the wrap-around yields.
- Integer widths other than those of 64-bit Unix (`int` 32, `long` and `long long` 64 bits).
- The three digit loops for bases 8, 10 and 16 are one loop over the base; shifts and masks are divisions.
- `memchr`, `memcpy` and `strlen` are operations on sequences, and the `int` arguments of `%c` are truncated to a byte.
- Mutexes, condition variables and futures: push and pop are atomic steps, and a finished job stands for its future. `WaitAndPop` and `Run` say nothing of a thread that waits for ever because nobody pushes.
- Sinks in `LogWorker.Worker` are referred to by their number in order of creation, in place of shared and weak pointers; a client's shared pointers are a count. A call through a handle, which owns the sink for its duration, is one step on an open sink.
- Sink callbacks that call back into the worker and wait: such a call can block for ever, and is no step of the model.
- Archive expiry (`expireArchives`): conservation of the log is about the time before old archives are deleted.
- FileRotateSink.RotatingSink.Create: without assertions compiled in, a log that cannot be opened leaves a sink without a stream, whose use is undefined.
- The text written by the destructor of the sink, and the formatting of messages.
- A stream that passes its buffer on by itself: the model flushes only where the code does, so the number of unflushed writes is an upper bound.
- `put_time` and `localtime`, which format the rest of a time.
- A fatal message that is logged from inside the fatal hook: calls of the logger are atomic. The thread that logs a fatal message and then sleeps for ever is not a step.
- Stack dumps, demangling, raising signals, the signal handler's own text, and the Windows crash handler.
- `FileSink`, `ColorCoutSink`, `LogCapture`, log levels and command line examples: easy next to the above.
