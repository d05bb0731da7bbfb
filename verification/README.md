# MWDD32 runtime: a verified model

MWDD32 is the runtime under 32-bit OS/2 device drivers and file systems. This project models its
algorithms and proves what they compute:

- **Wildcard matching** (`FnmatchOs2`, `FnmatchUnix`, `FnmatchPaths`, `OpenPre`). The matchers are loops
  over cursors, recursive for an asterisk only. Their specification is an alignment: a name matches when
  it can be cut into one piece per mask character (OS/2 and DOS style) or per mask token (Unix style),
  each piece one that its character or token covers. Paths in OS/2 and DOS style match when their
  components do, pairwise. `FnmatchLaws` relates outcomes under different flags; `FnmatchCompLaws`,
  `FnmatchPathLaws` and `FnmatchUnixLaws` say in characters what whole families of masks match.
- **Numbers** (`Numerals`, `Strtol`, `NumberFormat`, `RoundTrip`, `StrtolLaws`). `strtol` and `strtoul`
  are exact saturation of positional value; what `number` prints, both read back.
- **Formatted output** (`Vsprintf`, `VsprintfLaws`). A format is a sequence of directives, and `vsprintf`
  writes what they render, one after the other. Directives are read as they are written.
- **The C standard** (`IsoC`). The texts of ISO/IEC 9899:2011, written down from the standard, and
  exactly when parsers and printer part from them.
- **RAM semaphores** (`Semaphore`). Steps of any number of threads on one processor, interleaved
  wherever interrupts are enabled.
- **Stateful loops** (`Strtok`, `InitOptions`, `GdtSelectors`). The tokenizer with its static cursor,
  the driver's command line scan, and all-or-nothing selector allocation.

A read-only C string is the text before its NUL, with an index as cursor; `CStrings.At` reads the
text or, at its end, the terminator, and has no value beyond, so no cursor passes a terminator. What
the source writes through a pointer is an `array`. `int` and `long` are 32-bit two's complement and
wrap, field widths included. Flag words are decoded once (`FnmatchFlags.Decode`); the flag bits inside
`vsprintf` are a record. Long switches of the source are cut into several methods, each naming its
lines.

Where code and comments differ, the model follows the code:

- An inverted bracket set accepts a character when some one element lacks it (util/fnmatch.c:391-400),
  not when no element lists it (util/fnmatch.c:346-347). `FnmatchLaws.InvertedSetPromise` says for
  which sets the two agree; `[!ab]` is not one of them.
- A backslash in a Unix style mask quotes `*` and `?` only; before any other character it is passed
  over and that character keeps its meaning (util/fnmatch.c:424-438).
- The parsers stop at the very start of a `0x` without a digit after it (util/strtol.c:61-65,
  util/strtol.c:104-106), where section 7.22.1.4 of ISO/IEC 9899:2011 reads the 0. `IsoC.ReadsAsIso` says
  that they stop elsewhere than the standard nowhere else, and always have its value;
  `IsoC.BarePrefixIsNotRead` is the input.
- A precision does not cancel zero padding, a zero prints its prefix and, under a precision of 0, a
  digit, and `#` adds a 0 to an octal number whatever the precision (util/vsprintf.c:173-211), unlike
  section 7.21.6.1. `IsoC.PrintsAsIso` and `IsoC.DirectivePrintsAsIso` say exactly when the printed text
  is the standard's; `IsoC.ZeroDeparts`, `IsoC.OctalDeparts` and `IsoC.ZeroFillDeparts` are inputs.
- A negative precision argument is taken for 0 (util/vsprintf.c:268-274), where section 7.21.6.1 takes it
  for none: no matter for integers, but `%.*s` prints nothing. `IsoC.StringPrintsAsIso` says exactly when
  that shows; `IsoC.NegativePrecisionDeparts` is an input.
- A field width that wraps next to the smallest int makes a later padding loop run nearly forever: for
  such widths `RoundTrip.PrintThenParse` says exactly when what is printed no longer reads back, and
  `NumberFormat.FieldIsFilled` when the field has the wrong length. `Vsprintf.WrappedWidthSplits` is an
  input.

## Model

| member | source | states |
|---|---|---|
| FnmatchOs2.MatchCompOs2 | util/fnmatch.c:92-192 | For every mask and name component, match exactly when the rest of the mask component fits the rest of the name component and what follows the two is compatible; never an error |
| FnmatchOs2.FitsIffAlignment | util/fnmatch.c:83-90 | A component fits exactly when cuts exist that give every mask character a piece it covers: greedy `?`, implicit final dot, `*` as any piece (without dots in DOS style) |
| FnmatchOs2.StarRunIsOneStar | util/fnmatch.c:147-150 | A run of asterisks matches what one matches, so skipping the run is right |
| FnmatchOs2.StarTakesOneOrLeaves | util/fnmatch.c:151-161 | The retry loop is right: an asterisk leaves its place to the rest of the mask, or takes one character that it may take and stays |
| FnmatchOs2.MatchComp | util/fnmatch.c:202-223 | The component matches as a whole, the implicit dot added exactly to names without a dot; an error for other styles |
| FnmatchOs2.SkipComp | util/fnmatch.c:67-80 | The position just after the separator that ends the component, or the end of the string |
| FnmatchUnix.ScanSet | util/fnmatch.c:354-401 | The scan stops at the closing ] or at the end of the mask, and has accepted the character exactly when some element read has it (lacks it, if inverted) |
| FnmatchUnix.MatchSet | util/fnmatch.c:332-422 | A closed set consumes one allowed character; an unclosed [ stands for itself and matching resumes strictly after it |
| FnmatchUnix.MatchBackslash | util/fnmatch.c:424-439 | An ordinary character under FNM_NOESCAPE, else the quote of `*` or `?`, else nothing |
| FnmatchUnix.MatchStar | util/fnmatch.c:284-307 | The asterisk's turn, runs of asterisks included: match exactly when the tokens from the asterisk on fit the rest of the name |
| FnmatchUnix.MatchUnix | util/fnmatch.c:245-457 | For every mask, name and flags, match exactly when the tokens fit the name; `comp` is the start of the current component at every call |
| FnmatchUnix.FitsIffAlignment | util/fnmatch.c:239-243 | Tokens fit a name exactly when cuts exist that give every token a piece it covers, under the slash and leading dot rules |
| FnmatchUnix.StarTakesOneOrLeaves | util/fnmatch.c:286-307 | An asterisk refuses a leading dot, and else leaves or takes one character that is no barred slash |
| FnmatchUnix.StarRunIsOneStar | util/fnmatch.c:293-296 | A run of asterisks matches what one matches, under every flag |
| FnmatchPaths.PathStep | util/fnmatch.c:542-564 | Matching the first components and skipping past both is matching the whole path: mask and name stay in step, with _FNM_PATHPREFIX or without |
| FnmatchPaths.MatchComponents | util/fnmatch.c:545-573 | Without _FNM_PATHPREFIX, match exactly when both paths split into equally many components that match pairwise; with it, when the components the mask demands match the first ones of the name |
| FnmatchPaths.SkipTwoSlashes | util/fnmatch.c:524-533 | Two slashes, each with a backslash before it or not, are taken off the mask, or there is no match |
| FnmatchPaths.MatchStyle | util/fnmatch.c:503-545 | Per style: UNC names need UNC masks, then Unix alignment or component by component |
| FnmatchPaths.FnmatchUnsigned | util/fnmatch.c:466-574 | The whole outcome, with drives and colons: match, no match or error |
| FnmatchPaths.Fnmatch | util/fnmatch.c:577-585 | The same from a flag word to the return code |
| FnmatchLaws.DosMatchIsOs2Match | util/fnmatch.c:142-161 | Every DOS style match is an OS/2 style match |
| FnmatchLaws.PathPrefixKeepsMatches | util/fnmatch.c:548-552 | Adding _FNM_PATHPREFIX loses no match, in any style |
| FnmatchLaws.FlagWordLaws | include/os2/fnmatch.h:52-59 | Both laws for every 32-bit flag word |
| FnmatchLaws.IgnoreCaseIsLowering | util/fnmatch.c:179-188 | _FNM_IGNORECASE gives the same outcome as lower-casing mask and name, drive letters included: for every mask in OS/2 and DOS style, for every mask without a bracket in Unix style |
| FnmatchLaws.SetsStayCaseSensitive | util/fnmatch.c:378-400 | With a bracket it fails in Unix style: `[a-z]` refuses `B` with the flag, and accepts `b` without it |
| FnmatchLaws.StarDotStar | util/fnmatch.c:142-173 | `*.*` matches every colon-free single component in OS/2 style, and in DOS style exactly those with at most one dot |
| FnmatchLaws.SlashesPairUp | util/fnmatch.c:309-330 | Under FNM_PATHNAME a match has as many slashes in the name as slash tokens in the mask, and as many as in the mask itself if it has no bracket |
| FnmatchLaws.LeadingDotNeedsDot | util/fnmatch.c:270-291 | Under FNM_PERIOD only a dot of the mask consumes a component's leading dot, in every alignment |
| FnmatchLaws.InvertedSetPromise | util/fnmatch.c:346-347 | An inverted set accepts just the characters it does not list exactly when all its elements have the same extent |
| FnmatchLaws.InvertedSetAcceptsListed | util/fnmatch.c:391-400 | `[!ab]` matches `a` |
| FnmatchCompLaws.FinalDotLaw | util/fnmatch.c:163-173 | After any mask without dots a final dot matches what the mask matches among names without a dot, and else takes the name's last character, which must be a dot: the implicit dot belongs to names without a dot only |
| FnmatchCompLaws.StarDot | util/fnmatch.c:142-173 | `*.` matches exactly the plain names without a dot and those that end in one, in DOS style in their only one |
| FnmatchCompLaws.LiteralMask | util/fnmatch.c:163-188 | A mask without wildcards matches exactly itself and, if that leaves no dot, itself without its final dots |
| FnmatchCompLaws.NameAndExtension | util/fnmatch.c:131-173 | Question marks, a dot and question marks, `????????.???` for one, match exactly the names whose part before and part behind their only dot are not longer, a dotless name being all before it |
| FnmatchPathLaws.DriveLaw | util/fnmatch.c:479-501 | A drive on one side only, or two different drive letters, never match, but for the cases of one letter under _FNM_IGNORECASE; the same drive leaves the outcome of the rest; any other colon is an error in the mask, and else no match in the name |
| FnmatchPathLaws.UnknownStyle | util/fnmatch.c:221-223 | An unknown style is an error unless nothing is left to compare |
| FnmatchPathLaws.PathsByComponents | util/fnmatch.c:545-573 | Paths match component by component, whichever separators part them, and the four ways for mask and name to end are told apart, under _FNM_PATHPREFIX or without |
| FnmatchPathLaws.SeparatorsAreAlike | util/fnmatch.c:67-80 | In OS/2 and DOS style turning every backslash of mask and name into a slash changes no outcome |
| FnmatchPathLaws.UncLaw | util/fnmatch.c:503-517 | A name that begins with two separators matches like any other path, but only masks that do so too |
| FnmatchPathLaws.UnixUncLaw | util/fnmatch.c:519-540 | In Unix style two slashes that begin a name are taken by two of the mask, each with a backslash before it or without, and the rests match |
| FnmatchPathLaws.FlagWord | include/os2/fnmatch.h:36-66 | The meaning of each bit of the flag word, and the return codes |
| FnmatchUnixLaws.ReadsWhatIsWritten | util/fnmatch.c:245-457 | Round trip: every sequence of tokens whose literals are no slash, bracket or backslash can be written as a mask, ranges of any characters included, and the mask is read as those tokens |
| FnmatchUnixLaws.SetLaw | util/fnmatch.c:332-422 | A written set, for all its ranges, matches exactly one character that some range has or, after ! or ^, that some range lacks; no slash under FNM_PATHNAME, no dot under FNM_PERIOD |
| FnmatchUnixLaws.FirstBracketIsElement | util/fnmatch.c:354-360 | `[]]` matches `]` only |
| FnmatchUnixLaws.QuestionMarks | util/fnmatch.c:268-282 | Question marks match exactly the names of their number of characters, without slashes under FNM_PATHNAME and a leading dot under FNM_PERIOD |
| FnmatchUnixLaws.TextMatchesItself | util/fnmatch.c:309-457 | Any text, its asterisks and question marks quoted, matches itself and nothing else, a [ that nothing closes included; the same without quotes under FNM_NOESCAPE |
| FnmatchUnixLaws.BackslashedMatchesItself | util/fnmatch.c:424-439 | So does a text without brackets with a backslash before every character: before an ordinary one it is idle |
| FnmatchUnixLaws.TextMatchesPrefix | util/fnmatch.c:254-330 | With _FNM_PATHPREFIX it also matches the names that go on with a slash, and the name without its last slash; a backslash at the end of the mask changes nothing |
| FnmatchUnixLaws.TextAndStar | util/fnmatch.c:284-307 | A text and an asterisk match exactly the names that begin with the text, but for slashes under FNM_PATHNAME and a leading dot under FNM_PERIOD |
| OpenPre.OpenPre | skeleton/ses/sec32_OPEN_PRE.c:45-63 | Access is denied exactly when the last separator is after the first character and the base name has no colon and, in any case, is `config` or begins with `config.`; an invalid parameter when no separator is after the first character |
| OpenPre.ConfigMask | skeleton/ses/sec32_OPEN_PRE.c:54 | What `CONFIG.*` matches, case ignored, among names without separators |
| Strtol.OverflowTest | util/strtol.c:76-94 | The test against `max1` and `max2` fires exactly when one more digit would exceed the limit |
| Strtol.ReadDigits | util/strtol.c:76-101 | Over a digit run of any length: the value if it is within the limit, overflow exactly if it is not, no number exactly for an empty run; stops at the first non-digit |
| Strtol.ReadHead | util/strtol.c:49-67 | Blanks, one sign, a 0x that the radix allows, and the radix that then applies |
| Strtol.Strtol | util/strtol.c:42-130 | The signed value clamped to the range of long, 0 without digits; the end pointer is after the digits or at the start |
| Strtol.Strtoul | util/STRTOUL.C:42-129 | The value negated modulo 2^32 after a minus sign, ULONG_MAX when the digits exceed it; same end pointer |
| Strtol.Atol | util/atol.c:42-62 | The decimal value wrapped to 32 bits |
| Strtol.AtolIsStrtol | util/atol.c:48-61 | With only spaces and tabs in front, atol wraps the very number that strtol in radix 10 clamps, and exactly when the two agree |
| StrtolLaws.ReadsNumeral | util/strtol.c:42-130 | White space, sign, 0x and digits of any number, in any base or with radix 0: strtol gives the value cut to -2^31 and 2^31 - 1, strtoul the value, negated modulo 2^32, or 2^32 - 1, and both stop just after the digits |
| StrtolLaws.NumeralValue | util/strtol.c:79-86 | The digits 0-9, a-z and A-Z have the values 0 to 35: a numeral made of a number has its value |
| StrtolLaws.NoNumeral | util/strtol.c:101-107 | Without a digit the result is 0 and the end pointer the start |
| StrtolLaws.BadRadix | util/STRTOUL.C:67-129 | A radix that is neither 0 nor 2 to 36 gives 0 |
| StrtolLaws.AtolReads | util/atol.c:42-62 | atol passes over spaces and tabs only, and reads one sign and the decimal digits, none of them being 0 |
| NumberFormat.DigitsValue | util/vsprintf.c:173-186 | The printed digits are digits of the base and stand for the number |
| NumberFormat.CollectDigits | util/vsprintf.c:173-186 | The division loop fills `tmp` with those digits in reverse, within its bounds |
| NumberFormat.TakeSign | util/vsprintf.c:153-172 | The sign, the positive number (LONG_MIN included) and the room left, in 32 bits |
| NumberFormat.EmitNumber | util/vsprintf.c:190-211 | Padding, sign, prefix, zeros and digits in their order, and nothing else of the buffer changed |
| NumberFormat.Number | util/vsprintf.c:139-212 | For every long, width and precision, wrapping ones included: the text of the number written at `str`, its end returned; nothing written for a base out of range |
| NumberFormat.FieldIsFilled | util/vsprintf.c:187-210 | No field cuts a number; the length is the larger of the field width and what sign, prefix, precision and digits need exactly when the spare room does not wrap into something to fill |
| RoundTrip.ReadShape | util/strtol.c:49-101 | Blanks, sign, 0x and digits are found where they lie, with every radix that leads to the base |
| RoundTrip.PrintThenParse | util/vsprintf.c:139-212 | For every long, base 2 to 36, width, precision and mix of flags: strtol reads a signed print back, LONG_MIN included, strtoul reads any print back modulo 2^32, both stop just after the last digit, and the # forms of base 8 and 16 read back with radix 0, exactly when no blanks of a wrapped width split the number |
| RoundTrip.OrdinaryFieldsDoNotSplit | util/vsprintf.c:187-203 | No width that has not wrapped splits a number |
| IsoC.ReadsAsIso | util/strtol.c:49-106 | The parsers stop where section 7.22.1.4 of ISO/IEC 9899:2011 has them stop exactly when the numeral is no 0x without a hexadecimal digit behind it, and have its value on every string |
| IsoC.BarePrefixIsNotRead | util/strtol.c:61-106 | At `0x`, in radix 16 and 0, they stop at the start, the standard after the 0 |
| IsoC.PrintsAsIso | util/vsprintf.c:139-212 | For every base 8, 10 or 16, width, precision and mix of flags whose spare room does not wrap, the text is that of section 7.21.6.1, defined on its own, exactly when the number is not too long (zero value with zero precision or a prefix, octal prefix before the precision's zeros; an octal zero may be hidden by zero padding) and no zeros are filled in under a precision |
| IsoC.DirectivePrintsAsIso | util/vsprintf.c:235-370 | The same for %d, %i, %o, %x, %X and %u from flags, width and precision arguments, qualifier and conversion character to the text; that a negative precision argument is taken for 0 makes no difference here |
| IsoC.CharPrintsAsIso | util/vsprintf.c:287-294 | %c prints what the standard has, for every width and width argument, exactly unless a written width has wrapped next to the smallest int |
| IsoC.StringPrintsAsIso | util/vsprintf.c:296-310 | %s prints what the standard has, `<NULL>` for the null pointer, for every width but the smallest int, exactly unless a negative precision argument cuts off what can be seen |
| IsoC.NegativePrecisionDeparts | util/vsprintf.c:268-274 | `%.*s` of -1 and `ab` prints nothing |
| IsoC.ZeroDeparts | util/vsprintf.c:173-201 | `%#x`, `%#o` and `%.0d` of 0 print `0x0`, `00` and `0`, in the standard `0`, `0` and nothing |
| IsoC.OctalDeparts | util/vsprintf.c:187-205 | `%#.3o` of 8 prints `0010`, in the standard `010` |
| IsoC.ZeroFillDeparts | util/vsprintf.c:152-205 | `%05.3d` of 7 prints `00007`, in the standard two blanks and `007` |
| Vsprintf.SkipAtoi | util/vsprintf.c:114-121 | The value of the digit run, wrapped to an int, and its end |
| Vsprintf.Strnlen | util/vsprintf.c:77-84 | The length, cut to the count |
| Vsprintf.TakeFlags | util/vsprintf.c:235-245 | All flag characters are collected, in any order and number |
| Vsprintf.TakeWidth | util/vsprintf.c:247-259 | Width from digits or argument; a negative argument asks for left justification |
| Vsprintf.TakePrecision | util/vsprintf.c:261-274 | Precision from digits or argument, never negative once given |
| Vsprintf.TakeSpec | util/vsprintf.c:235-281 | Everything before the conversion character of the directive at hand |
| Vsprintf.EmitChar | util/vsprintf.c:287-294 | A character in its field, for every width, one that wraps included |
| Vsprintf.CharFillsField | util/vsprintf.c:287-294 | The field has its width exactly when that is not next to the smallest int |
| Vsprintf.EmitString | util/vsprintf.c:296-310 | A string cut to the precision, in its field; `<NULL>` for the null pointer; for every width and precision |
| Vsprintf.StringFillsField | util/vsprintf.c:296-310 | The precision cuts the string as an unsigned count, so that none cuts nothing; the field has its width exactly when that is not the smallest int, or the text is left justified or as long as an int allows |
| Vsprintf.EmitOther | util/vsprintf.c:350-357 | Unknown conversions, doubled and trailing percent signs |
| Vsprintf.EmitConversion | util/vsprintf.c:283-370 | What the conversion renders, and the store of %n through its own argument |
| Vsprintf.Convert | util/vsprintf.c:235-370 | One directive: its text written, its arguments fetched, the format position after it |
| Vsprintf.VSprintf | util/vsprintf.c:214-374 | For every format whose arguments fit: the buffer holds the concatenation of all renderings and a NUL, the length is returned, and the %n stores are made, each through its own target, in order |
| Vsprintf.RenderConcat | util/vsprintf.c:229-371 | Output and stores of two directive sequences in a row are those of the first, then those of the second |
| Vsprintf.CounterStoresLength | util/vsprintf.c:323-331 | A %n stores the length of the output before it, through the argument that is its own |
| Vsprintf.DoubledPrintsItself | util/vsprintf.c:350-357 | Any text with its percent signs doubled is a format that prints the text |
| Vsprintf.IntDirectiveReadsBack | util/vsprintf.c:333-370 | What an integer directive prints under any qualifier, width, precision and flag, strtol (%d, %i) or strtoul reads back up to the last digit, with radix 0 too under #, exactly when a wrapped width does not split it; after h it is the argument cut to a short |
| Vsprintf.LongDirectiveReadsBack | util/vsprintf.c:359-369 | Without h, what is read back is the argument itself in 32 bits |
| Vsprintf.OrdinaryWidthsDoNotSplit | util/vsprintf.c:247-259 | A width from an argument, or one written out that has not wrapped, splits nothing |
| Vsprintf.WrappedWidthSplits | util/vsprintf.c:250-251 | `%+2147483650d` of 5 is split |
| VsprintfLaws.DirectiveIsRead | util/vsprintf.c:235-281 | A directive written as percent sign, flags in any order and number, width, precision, qualifier and conversion character is read as just that, wherever it stands |
| VsprintfLaws.ConversionsReadBack | util/vsprintf.c:333-370 | %d, %i and %u read back in base 10, %o in base 8, %x and %X in base 16: the argument modulo 2^32, after h modulo 2^16, %d and %i with its sign |
| VsprintfLaws.FetchesJustEnough | util/vsprintf.c:247-370 | A directive prints the same from just the arguments it fetches, and fewer do not suit it |
| VsprintfLaws.WidthArgument | util/vsprintf.c:251-259 | An asterisk for a width stands for the argument, negative for the - flag and its size |
| VsprintfLaws.PrecisionArgument | util/vsprintf.c:267-274 | An asterisk for a precision stands for the argument, or for 0 |
| VsprintfLaws.PointerIsHex | util/vsprintf.c:312-321 | %p prints as %lx does and, without a width, as %08lx |
| VsprintfLaws.UnknownPrintsItself | util/vsprintf.c:350-357 | A character that is no conversion is printed after its percent sign |
| VsprintfLaws.LonePercent | util/vsprintf.c:350-357 | A percent sign that ends the format prints itself |
| Semaphore.StepKeepsInv | include/os2/fsh32.h:46-115 | Every step of every thread keeps mutual exclusion, the wake-up invariant and what each place in the code says |
| Semaphore.ReachableIsSafe | include/os2/fsh32.h:77-115 | In every reachable state at most one thread holds the semaphore, the word is 1 exactly when one does, and while one is blocked with the word 0 some thread has yet to call DevHlp32_ProcRun |
| Semaphore.ReturnTellsAcquired | include/os2/fsh32.h:77-109 | Over a whole call, whatever others do: NO_ERROR of request and set exactly when the caller acquired; any other return leaves what it held |
| Semaphore.SuccessFoundItFree | include/os2/fsh32.h:46-109 | Over a whole call, a wait included: NO_ERROR exactly when one of its own tests found the word 0 |
| Semaphore.FailureIsTimeOut | include/os2/fsh32.h:46-92 | Over a whole call: the error of DevHlp32_ProcBlock exactly when the call timed out while blocked; it never gives up by itself |
| Semaphore.ReturnCode | include/os2/fsh32.h:46-109 | The return code of every call from what happened during it, ERROR_EXCL_SEM_ALREADY_OWNED for fsh32_semset only |
| Semaphore.BlocksWhenTaken | include/os2/fsh32.h:46-109 | No busy waiting: request and wait block exactly once per test that finds the semaphore taken, set never |
| Semaphore.StaysBlocked | include/os2/fsh32.h:46-115 | A blocked thread goes on by its own time-out or a DevHlp32_ProcRun only |
| Semaphore.FailedCallLeavesAlone | include/os2/fsh32.h:46-109 | At none of its own steps does a call that times out or is refused, or a wait, change word or owner |
| Semaphore.RunIsLockHistory | include/os2/fsh32.h:77-115 | The acquisitions and releases of every run are the history of a lock: acquired when free, released by the owner |
| Semaphore.FreeMeansProgress | include/os2/fsh32.h:46-115 | With the semaphore free, some unfinished call can go on without a time-out |
| Strtok.Tokenizer.Strtok | util/strtok.c:36-76 | One call: result, new static cursor and the one NUL written |
| Strtok.OneCall | util/strtok.c:46-75 | One call with any delimiters, others than before or not: nothing left exactly when only delimiters are, else the first maximal run, a NUL at its end, and the next call behind it |
| Strtok.MakeTable | util/strtok.c:54-57 | The table marks exactly the delimiters |
| Strtok.PastDelims | util/strtok.c:58-59 | The first character that is no delimiter |
| Strtok.PastToken | util/strtok.c:61-63 | The first delimiter or terminator |
| Strtok.TokensAreMaximalRuns | util/strtok.c:58-75 | The tokens are exactly the maximal non-empty delimiter-free runs |
| Strtok.TokensInOrder | util/strtok.c:58-75 | They come in order, with a delimiter between any two |
| Strtok.RunReturnsTokens | util/strtok.c:46-75 | A whole run with one delimiter set returns exactly those runs, in order, then null for ever, and the buffer changes only by a NUL right after each token |
| Strtok.TokensCanBeRead | util/strtok.c:72-75 | However many calls follow, each token returned reads as its original characters up to a NUL |
| InitOptions.Strupr | util/strupr.c:41-52 | The text is upper-cased in place, the rest of the buffer kept |
| InitOptions.Strpbrk | util/STRPBRK.C:37-49 | The first character of the set from a position on, or null |
| InitOptions.Act | skeleton/basedev/drv32_init_base.c:146-163 | One mark: the setting it makes and where the search goes on |
| InitOptions.ScanOptions | skeleton/basedev/drv32_init_base.c:144-165 | The scan ends on every command line, and its settings are those of the marks it visits |
| InitOptions.SettingsAre | skeleton/basedev/drv32_init_base.c:150-162 | Quiet exactly when a visited mark is followed by Q, an IRQ requested exactly when one is followed by IRQ_LEVEL: |
| InitOptions.IrqLevelIsLast | skeleton/basedev/drv32_init_base.c:159-161 | The IRQ level is the number of the last visited IRQ_LEVEL option, or what it was |
| InitOptions.VisitsAllButSigns | skeleton/basedev/drv32_init_base.c:145-162 | The scan visits every - and / except the sign of a number after IRQ_LEVEL: |
| InitOptions.UpperReadsSame | skeleton/basedev/drv32_init_base.c:144 | Upper-casing the command line first does not change what strtoul reads, in any radix |
| InitOptions.OptionsInAnyCase | skeleton/basedev/drv32_init_base.c:144-165 | In the characters of the command line as given: quiet exactly when a visited - or / is followed by q in either case, an IRQ exactly when one is followed by irq_level: in any case, the level what strtoul reads after the last one, cut to 16 bits; every - and / visited but signs |
| GdtSelectors.AllocGDTSelector | devhlp32/DevHlp32_AllocGDTSelector.c:37-59 | For any count and any answers of the kernel: it asks until it has them all or is refused and returns the last answer; all selectors, distinct and new, in the order given, or the set of selectors in use as it was |

## Left out

- Vsprintf.VSprintf: arguments must be present and of the types the format asks for, as C demands; the format and the string arguments do not overlap the output buffer, which has room for the output.
- Strtok.Tokenizer.Strtok: the delimiter set does not overlap the buffer, and the per-thread cursor of a multithreaded build is not modelled.
- FnmatchLaws.IgnoreCaseIsLowering: not stated for Unix style masks with brackets, where sets stay case-sensitive by design, so that it can fail (FnmatchLaws.SetsStayCaseSensitive).
- Semaphore: fairness, real time-outs, more than one processor, and interrupt handlers that call the semaphore functions; DevHlp32_ProcBlock returns NO_ERROR only after DevHlp32_ProcRun.
- InitOptions.ScanOptions: of drv32_init_base only the command line scan; IRQ hooking, segment locking and the request packet are not part of this model.
- GdtSelectors.Kernel: the kernel's own allocator is a parameter that may fail at any call; the return code of freeing is ignored, as the source ignores it.
- The assembler thunks, stack-to-flat conversion, calling conventions and segment layout.
- The open, close, read, write and strategy stubs, the IDC and IOCTL dispatchers and the IFS skeleton: dispatch without loops.
- The disabled simple_strtoul and the disabled semaphore variant.
