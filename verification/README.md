# MegaOS: formatter and interrupt path

A Dafny model of the two parts of the MegaOS kernel that do the most work, with proofs.

**The formatter** (`kernel/logging.cpp`). `Directives` is the directive syntax as a total parser on
strings, with a printer. `Rendering` says what a format means: the text of each piece, given the
arguments, concatenated. `Fields` gives the text of a numeric field, including everything the
32-character conversion buffer cuts off, and next to it the layout of ISO/IEC 9899:2011, 7.21.6.1.
`Printf` is the formatter itself: cursors, counters, the buffer filled back to front, the loops. It is
proved to hand exactly the rendered text to its sink, one character at a time and with the right index.
`Sinks` and `Console` are where the characters go (buffer, nowhere, terminal, serial line, a function),
`Logging` the public entry points. `Laws` holds what users rely on, directive by directive: reading back
what was printed, the standard's layout, and for every promise that the code does not keep everywhere, the
exact condition under which it does. `HashLaws` does the same for the `#` flag, `Nuls` for NUL characters in
the text. `Conformance` compares a directive and its arguments, `*` fields included, with what the standard
makes of them. `Formats` shows that formats compose and how they can be spelled. `Written` starts from the
characters of a format (flags, a width, a precision, a length modifier, a conversion) and says what is
printed, without a word about how the format is parsed. `Numerals`, `Text` and `Words` carry the arithmetic.

**The interrupt path** (`kernel/arch/x86_64`, `kernel/devices`). `Pic8259` models two cascaded 8259A
chips after the Intel datasheet. `Pic` is the kernel's driver, written as port writes against them.
`Descriptors` has the processor's gates and segments and what their bits mean, `Gdt` and `Idt` fill the
tables of them. `Entry` runs the assembly stubs on a small stack machine, `Keyboard` is the scancode driver. `Interrupts` has the dispatcher and proves properties of whole runs: every
sequence of interrupts, spurious interrupts, mask changes and remaps. `Kernel` joins all of it: the
boot sequence, an interrupt from the acknowledge cycle through gate, stub, frame, dispatcher and back to
the interrupted program, and the kernel from boot over any number of interrupts. `Messages` shows what
the formatter makes of the messages on that path, so that the theorems speak about the final bytes.

Arguments are the 64-bit slots of a variable argument list (`Word`) or NUL-free strings (`Str`). A
format is a NUL-free string, and reading a character at its end gives the terminator. Counters are
natural numbers: each entry point requires the whole text to be shorter than 2^31 characters, so that
no index or length wraps; where a C value does wrap (`_atoi`, length modifiers, `_strnlen_s`, the limit
`maxlen - 1` of a zero `maxlen`), the reduction is written out.

## What does not hold, and when it does

- The `#` flag can take back digits. `%#2x` of 0xAB prints `0x` (`HashLaws.HashTakesDigits`). What a
  directive with `#` prints is readable exactly when `HashLaws.HashDirective`'s condition holds: a binary
  number has at most 32 digits, and a non-zero number neither just fills its field (one place of slack
  counts as full in base 16 under zero padding) nor runs out of buffer in the middle of the prefix. It has
  the standard's layout exactly under `HashLaws.HashFits` (`HashLaws.HashLayout`), again once the `*` fields
  have their values.
- `%#p` of 0xFFFF_FFFF_8000_0000 does not read back; `%#p` works exactly below 16^14
  (`HashLaws.PlainPointerHash`), and with other flags or a precision exactly under `HashLaws.PointerReads`
  (`HashLaws.PointerHash`).
- Under `-` the precision adds no zeros, and a sign for which the 32-character buffer has no room is
  dropped (`Laws.LayoutDeviates`). Once the `*` fields have their values, `Laws.IntegerConforms` gives the
  exact condition for the standard's layout, which includes one case where a padding space stands for a
  dropped space sign; `Fields.FieldLength` the exact length of every field without `#`, `Fields.HashLength`
  that of one with `#`, `Laws.DirectiveRoundTrip` the exact condition for reading the number back.
- A negative `*` precision counts as zero, where ISO/IEC 9899:2011, 7.21.6.1 takes it as left out: `%.*d` of
  -1 and 0 and `%.*s` of -1 and `abc` print nothing (`Conformance.NegativePrecision`,
  `Conformance.NegativeStringPrecision`). With it, an integer directive still prints the standard's text
  exactly when its number is not zero, fits the buffer and needs no zeros of the `0` flag, a string
  directive exactly when its string is made of spaces that fit the field. `Conformance.IntegerByStandard`
  and `Conformance.StringByStandard` give the exact condition for every directive and all its arguments.
  The lower-case prefix of `%#X`, a choice of the source (`kernel/logging.hpp:17-19`), is taken over into the
  standard's texts here; the standard's own is never printed (`Conformance.LowerPrefix`).
- The return values of `vprintf` and `fctprintf` are documented as the characters written or sent
  (`kernel/logging.hpp:70`, `kernel/logging.hpp:82`), but count the NULs that these sinks drop: `%c` of 0
  returns 1 and sends nothing (`Nuls.CharZero`). Before newlines are expanded the two numbers agree exactly
  when no `%c` of the format gets an argument that is zero modulo 256 (`Nuls.DroppedNuls`). On the serial
  line, with newlines expanded, they agree exactly when the text has as many NULs as line feeds
  (`Nuls.SerialLength`).
- `send_eoi` is documented to end a master interrupt on the master only
  (`kernel/arch/x86_64/interrupts.cpp:220-223`), which holds exactly for numbers below 8
  (`Pic.SlaveUntouched`). It is given vectors, which are at least 32, so it always writes to both chips. The
  slave keeps its state exactly when it serves nothing (`Interrupts.MasterEnds`); a keyboard interrupt that
  arrives during one of line 8 ends that one too (`Interrupts.KeyboardEndsSlave`). From an idle state
  nothing stays in service (`Interrupts.RunInvariant`, `Interrupts.ServiceEnds`).
- The exception stubs push number and error code in the other order than the frame declares them, so
  their handler finds the error code in `int_no` (`Entry.ExceptionFrame`).
- The loop over vectors 32 to 255 reads one word past the 223 entries of the stub table, so the gate of
  vector 255 holds whatever follows the table (`Idt.OwnStubs`).

## Model

| member | source | states |
|---|---|---|
| Printf.Vsnprintf | kernel/logging.cpp:723-1074 | For every well-formed format with suitable arguments, the characters handed to the sink are the rendering of the parsed format, in order; the return value is their number; the terminator comes last. |
| Printf.NextPiece | kernel/logging.cpp:734-747 | The text of a format is the text of its first literal or directive, then the text of the rest on the arguments left over. |
| Printf.FormatDirective | kernel/logging.cpp:749-1067 | A directive moves the cursor strictly forward to the end of its syntax, takes exactly the arguments its syntax asks for, and sends its text. |
| Printf.ParseDirective | kernel/logging.cpp:749-859 | The sections before the conversion give the parsed flags, width, precision and length; `*` fields take their arguments in the order width, precision. |
| Printf.ParseFlags | kernel/logging.cpp:749-784 | The flag loop stops at the first character that is no flag and returns the set of the flags before it. |
| Printf.Atoi | kernel/logging.cpp:254-269 | Reads the maximal run of digits, returns its value modulo 2^32, stops just after it. |
| Printf.ParseWidth | kernel/logging.cpp:786-803 | The width is the number written, or the magnitude of the argument, which adds `-` when negative. |
| Printf.ParsePrecision | kernel/logging.cpp:805-820 | The precision is the number written, or the argument, a negative one counting as zero; a dot alone means zero. |
| Printf.ParseLength | kernel/logging.cpp:822-859 | The length field sets the size bits of `l`, `ll`, `h`, `hh`; `t`, `j` and `z` are those of `l`. |
| Printf.FormatValue | kernel/logging.cpp:861-1066 | The conversion switch sends the conversion's text and takes one argument exactly for the conversions that have one; other characters stand for themselves. |
| Printf.FormatInteger | kernel/logging.cpp:864-956 | An integer conversion sends the field of the argument cut to its length modifier. |
| Printf.AdjustFlags | kernel/logging.cpp:883-904 | Decimal conversions lose `#`, unsigned ones lose `+` and space, a precision cancels `0`, `X` is upper case. |
| Printf.TakeInteger | kernel/logging.cpp:907-953 | Signed and unsigned arguments are reduced modulo the range of their length modifier. |
| Printf.FormatChar | kernel/logging.cpp:977-1000 | One character, the argument modulo 256, justified in its field. |
| Printf.FormatString | kernel/logging.cpp:1002-1033 | The string up to the precision, justified in its field, including an explicit precision of zero. |
| Printf.SendText | kernel/logging.cpp:1018-1022 | Sends the characters up to the end of the string or the precision, whichever comes first. |
| Printf.Strnlen | kernel/logging.cpp:244-249 | The length of a string, cut off at a maximum, as an unsigned int. |
| Printf.FormatPointer | kernel/logging.cpp:1035-1055 | A pointer is an upper-case base-16 field of width 16, zero-padded. |
| Printf.Ntoa | kernel/logging.cpp:372-428 | Sends the field of an integer; both widths of the C function are this one. |
| Printf.StoreDigits | kernel/logging.cpp:386-394 | The conversion loop leaves the last 32 digits of the number in the buffer, back to front. |
| Printf.NtoaFormat | kernel/logging.cpp:308-368 | Completes digits to a field with zeros, prefix and sign, and sends it. |
| Printf.Build | kernel/logging.cpp:312-365 | The buffer after zeros, prefix and sign reads as the field's content; the inner width reserves the sign's place. |
| Printf.PadZeros | kernel/logging.cpp:319-326 | Adds zeros up to a length, as far as the buffer goes. |
| Printf.HashPrefix | kernel/logging.cpp:329-351 | Takes characters back from a full field and adds the base's prefix as far as the buffer goes. |
| Printf.OutRev | kernel/logging.cpp:273-304 | Sends the buffer in reading order, aligned with spaces to the width. |
| Printf.SendReversed | kernel/logging.cpp:288-292 | Sends the buffer from its end to its start. |
| Printf.SendSpaces | kernel/logging.cpp:279-301 | Pads with spaces up to the width. |
| Fields.FieldShape | kernel/logging.cpp:308-368 | A field without `#` is spaces, sign, zeros, digits, spaces, with exact counts. |
| Fields.FieldLength | kernel/logging.cpp:273-367 | The exact length of every integer field without `#`, for all values, flags, widths and precisions. |
| Fields.FieldLengthLaw | kernel/logging.cpp:273-367 | That length is max(width, sign + max(digits, precision)) exactly when the buffer is large enough or the width hides the difference. |
| Fields.IsoConformance | kernel/logging.cpp:308-397 | A field without `#` has the standard's content exactly when that fits 32 characters and `-` meets no larger precision. The whole field is the standard's exactly then, or when a padding space takes the place of a dropped space sign. |
| Fields.StoredValue | kernel/logging.cpp:386-394 | The stored digits stand for the number modulo base^32, and are min(32, digits) many. |
| Fields.IntegerRoundTrip | kernel/logging.cpp:273-397 | Reading a field without `#` gives the number back exactly when it has at most 32 digits and a minus sign had room. |
| Fields.HashSurvival | kernel/logging.cpp:312-338 | Under `#` the remaining digits stand for the number exactly when no digit is taken back. |
| Fields.HashRoundTrip | kernel/logging.cpp:308-368 | Reading a non-zero field with `#` gives the number back exactly when no digit is taken back and the prefix is whole or absent, with any of the other flags. |
| Fields.HashLength | kernel/logging.cpp:308-368 | The length of every field of a non-zero number with `#`. |
| Laws.StoredExactly | kernel/logging.cpp:386-394 | Every 64-bit number is stored exactly in base 8, 10 and 16, in at most 22 digits; base 2 keeps it modulo 2^32. |
| Laws.IntegerConforms | kernel/logging.cpp:864-956 | With its width and precision known: between its spaces an integer directive without `#` prints the standard's sign, zeros and digits, in terms of the flags as written, exactly when they fit the buffer and `-` meets no larger precision; what it prints as a whole is the standard's exactly then, or for a space sign dropped next to padding spaces. |
| Conformance.IntegerByStandard | kernel/logging.cpp:786-956 | An integer directive, `#` and `*` fields included, prints what the standard prescribes for its arguments exactly under `GivenFits`, or under `OmittedFits` when its precision is a negative argument. |
| Conformance.StringByStandard | kernel/logging.cpp:786-1033 | A string directive prints what the standard prescribes exactly unless a negative precision meets a string that shows. |
| Conformance.NegativePrecision | kernel/logging.cpp:808-817 | `%.*d` of -1 and 0 prints nothing, where the standard prints `0`. |
| Conformance.NegativeStringPrecision | kernel/logging.cpp:808-817 | `%.*s` of -1 and `abc` prints nothing, where the standard prints `abc`. |
| Conformance.LowerPrefix | kernel/logging.cpp:340-351 | `%X` never prints a capital `X`, so never the standard's own prefix. |
| Conformance.ParsedLower | kernel/logging.cpp:749-784 | The flags of every directive in a format lack the upper-case bit, as the theorems on directives ask. |
| Written.WrittenText | kernel/logging.cpp:749-859 | A directive written with flags, width, precision and length in their order gives its conversion those flags and numbers. |
| Written.WrittenString | kernel/logging.cpp:1002-1033 | `%s` with any flags, a written width and precision: the first characters of the string, as many as the precision says, in a field of the width, on the left exactly under `-`. |
| Written.WrittenChar | kernel/logging.cpp:977-1000 | `%c` with any flags and width: the argument modulo 256, in a field of the width. |
| Written.WrittenOther | kernel/logging.cpp:1057-1066 | Every other character that can end a directive is printed as it is, `%%` as a percent sign. |
| Written.WrittenInteger | kernel/logging.cpp:786-956 | An integer directive with any flags, width, precision and length modifier prints the standard's text for its number exactly when that fits the buffer. |
| Written.PlainNumber | kernel/logging.cpp:822-953 | Each length modifier leaves its number of bits, each conversion its base, and `%d` and `%i` two's complement: reading the text back says so. |
| Written.DecimalUnder | kernel/logging.cpp:308-365 | `%d` under any flags but `#`, width and precision, to the character, when the buffer holds it. |
| Written.PaddedDecimal | kernel/logging.cpp:273-304 | `%5d` and `%-5d`, for every width: spaces before the number, and after it. |
| Written.ZeroedDecimal | kernel/logging.cpp:313-326 | `%05d`, for every width up to the buffer: the sign, zeros, the digits. |
| Written.PreciseDecimal | kernel/logging.cpp:805-820 | `%.3d`, for every precision below the buffer: the sign and at least so many digits. |
| Written.SignedDecimal | kernel/logging.cpp:353-365 | `%+d` and `% d`: a plus sign, and a space, where there is no minus sign. |
| Written.WrittenInBase | kernel/logging.cpp:329-351 | `%x`, `%X`, `%o` and `%b` of every non-zero number and length modifier: the numeral, after `0x`, `0` or `0b` under `#`. |
| Written.WrittenCase | kernel/logging.cpp:388-393 | Under any flags, width, precision and length `%x` prints no upper-case digit and `%X` no lower-case one. |
| Written.WrittenPointer | kernel/logging.cpp:1035-1055 | `%p` prints sixteen digits, in upper case, which no flag or precision changes. |
| Written.WrittenStar | kernel/logging.cpp:791-803 | A `*` width, any int but the least, prints what that width does when it is written out, a negative one under `-`. |
| Written.StarWidth | kernel/logging.cpp:791-803 | The same for every directive and its arguments. |
| Written.StarPrecisionWritten | kernel/logging.cpp:805-820 | A `*` precision does what it does when it is written out, a negative one and a dot alone what zero does. |
| Written.HexInstances | kernel/logging.cpp:388-393 | `%X` and `%x` of 0xAB print `AB` and `ab`, `%#lX` prints `0xAB`. |
| Laws.DirectiveRoundTrip | kernel/logging.cpp:864-956 | Reading back an integer directive without `#` gives the argument as cut to its length modifier, exactly when a binary number is below 2^32 and a negative one is not zero-filled to 32 digits. |
| HashLaws.HashDirective | kernel/logging.cpp:329-351 | Reading back any number printed with `#` succeeds exactly when a binary number has at most 32 digits, and a non-zero number does not just fill its field and has its prefix not cut in half. |
| HashLaws.HashLayout | kernel/logging.cpp:308-353 | With its width and precision known, a directive with `#` prints what the standard prescribes, in lower-case prefixes, exactly when `HashFits` holds of flags, width, precision and the number of digits. |
| HashLaws.PointerHash | kernel/logging.cpp:1035-1055 | Reading back a pointer printed with `#`, any other flags and a precision: exactly when it is null or no digit and no half of the prefix is lost. |
| HashLaws.PlainPointerHash | kernel/logging.cpp:1035-1055 | `%#p` reads back exactly below 16^14; the address where the kernel lives does not. |
| HashLaws.OctalPrecision | kernel/logging.cpp:313-351 | A precision under `#` in octal: one digit more than the standard's. |
| HashLaws.HashTakesDigits | kernel/logging.cpp:332-338 | A field that loses all its digits to `#`. |
| Laws.LayoutDeviates | kernel/logging.cpp:313-353 | A precision ignored under `-`, and a sign dropped for lack of room. |
| Laws.PointerRoundTrip | kernel/logging.cpp:1035-1055 | Every pointer printed without `#` reads back, and takes 16 characters by default. |
| Laws.StringDirective | kernel/logging.cpp:1002-1033 | A string directive shows the first min(length, precision) characters on the side `-` chooses of a field of spaces. |
| Laws.NumberReadsPrinted | kernel/logging.cpp:261-269 | The number reader undoes flagless decimal printing for every number below 2^32. |
| Formats.FormattedAppend | kernel/logging.cpp:734-1067 | Formats compose: a format that is accepted can be followed by any other, which takes up the arguments where the first stopped; the texts are concatenated. |
| Formats.ParseComposes | kernel/logging.cpp:734-859 | A C string is parsed the same whatever follows it exactly when it is a well-formed format. |
| Formats.DirectiveBefore | kernel/logging.cpp:749-859 | A directive with its conversion is read the same whatever follows it. |
| Formats.ParseSpellAll | kernel/logging.cpp:734-859 | Parsing a spelled-out sequence of literals and canonical directives gives that sequence back. |
| Formats.OnlyLastCutOff | kernel/logging.cpp:1062-1065 | The only directive that can run into the terminator is the last one. |
| Formats.WellFormedByLast | kernel/logging.cpp:1062-1065 | A C string is a well-formed format, one on which the default arm never steps over the terminator, exactly when its last piece is not a directive without a conversion. |
| Formats.CutOff | kernel/logging.cpp:1062-1065 | A directive without a conversion has used up the whole format. |
| Directives.ParsePrint | kernel/logging.cpp:749-859 | The field sections parse the spelling of a canonical directive back to it, whatever follows. |
| Directives.FlagOrder | kernel/logging.cpp:749-784 | Two runs of flags parse alike exactly when they have the same set of characters; the rest of the directive does not depend on them. |
| Directives.FlagsReadBack | kernel/logging.cpp:755-779 | Each flag character sets its own flag: spelling a set of flags and reading it gives the set back. |
| Directives.NumberRoundTrip | kernel/logging.cpp:261-269 | A numeral below 2^32 is read back and the reader stops just after it. |
| Sinks.Sink.Put | kernel/logging.cpp:197-239 | The four output functions: a cell below the limit, nothing, the console, a call; the last two skip NULs. |
| Sinks.Sink.Out | kernel/logging.cpp:197-239 | After each character what the caller can see is what the characters so far amount to. |
| Sinks.Sink.Finish | kernel/logging.cpp:1069-1070 | The terminator lands after the text or in the last cell, and nowhere without cells. |
| Sinks.Sink.ToBuffer | kernel/logging.cpp:728-732 | A null buffer makes the sink a null sink. |
| Sinks.TerminatorStored | kernel/logging.cpp:1069-1070 | Terminating the stored characters gives the truncated text, for every limit including zero. |
| Logging.Vsnprintf | kernel/logging.cpp:1132-1135 | The first min(count - 1, n) characters, a NUL, and the rest of the buffer untouched; n is returned for every count and for a null buffer. |
| Logging.Sprintf | kernel/logging.cpp:1105-1112 | A large enough buffer gets the whole text and its NUL; without a buffer the text is counted. |
| Logging.Fctprintf | kernel/logging.cpp:1138-1146 | The function is called on the text without its NULs, in order; the number of calls is the length returned exactly when no `%c` sends a NUL. |
| Logging.Vprintf | kernel/logging.cpp:1125-1129 | The NUL-free text goes where the routing flag says and nowhere else; before newlines are expanded its length is the one returned exactly when no `%c` sends a NUL, on the serial line after that exactly when NULs and line feeds are equally many. |
| Logging.Kprintf | kernel/logging.cpp:1094-1102 | The NUL-free text goes where the routing flag says, which is left alone. |
| Logging.Dprintf | kernel/logging.cpp:1079-1092 | The NUL-free text goes to the serial line only, with a carriage return before each line feed; routing ends on the terminal. |
| Nuls.FormattedNul | kernel/logging.cpp:977-1000 | The text of a format has a NUL exactly when some `%c` of it gets an argument that is zero modulo 256. |
| Nuls.DroppedNuls | kernel/logging.cpp:222-237 | What the dropping sinks get is as long as the whole text exactly when no such `%c` occurs. |
| Nuls.CharZero | kernel/logging.cpp:222-237 | `%c` of zero: a text of one character, none of which arrives. |
| Nuls.SerialLength | kernel/logging.cpp:130-136 | How many characters a text sends on the serial line, which is its length exactly when it has as many NULs as line feeds. |
| Console.CrLfRoundTrip | kernel/logging.cpp:130-136 | The serial newline expansion can be undone on every text. |
| Console.CrLfInjective | kernel/logging.cpp:130-136 | Two texts look alike on the serial line exactly when they are equal. |
| Console.CrLfMeans | kernel/logging.cpp:130-136 | The expansion goes character by character: a line feed becomes a carriage return and a line feed, every other character stays. |
| Console.NonNulMeans | kernel/logging.cpp:222-237 | The NUL filter goes character by character: a NUL goes, every other character stays. |
| Console.Console.Dputc | kernel/logging.cpp:130-136 | A character on the serial line, a line feed preceded by a carriage return. |
| Console.Console.Kputc | kernel/logging.cpp:138-141 | A character on the terminal. |
| Console.Console.PutChar | kernel/logging.cpp:97-101 | The routing flag selects the serial line or the terminal. |
| Console.Console.Kprint | kernel/logging.cpp:172-181 | A string goes where the flag says; a null string writes nothing and returns 0. |
| Console.Console.Kputs | kernel/logging.cpp:151-162 | The same with a newline at the end. |
| Console.Console.Dprint | kernel/logging.cpp:164-170 | A string on the serial line, whatever the routing was. |
| Console.Console.Dputs | kernel/logging.cpp:143-149 | The same with a newline at the end. |
| Pic8259.EndHighestLine | kernel/arch/x86_64/interrupts.hpp:96-101 | The non-specific end of interrupt clears the lowest line in service and no other. |
| Pic.RemapPic | kernel/arch/x86_64/interrupts.cpp:193-208 | From any state, the writes take a chip through ICW1 to ICW4: it ends ready, with its base and wiring programmed and its mask kept. |
| Pic.RemapWired | kernel/arch/x86_64/interrupts.cpp:193-208 | A remapped pair is told of its cascade line, puts vectors on the bus as an 8086 expects, and waits for the end of each interrupt. |
| Pic.RemapDelivers | kernel/arch/x86_64/interrupts.cpp:193-208 | A remapped pair delivers every line that is not masked, with its chip's offset and its number as vector, and keeps it in service. |
| Pic.Remap | kernel/arch/x86_64/interrupts.cpp:210-216 | Both chips remapped, and the message on the serial line, to the byte. |
| Pic.SetIrqMask | kernel/arch/x86_64/interrupts.cpp:165-177 | Sets one line's bit in the mask register of its chip; a line number from 16 on changes nothing. |
| Pic.ClearIrqMask | kernel/arch/x86_64/interrupts.cpp:179-191 | Clears one line's bit in the mask register of its chip; a line number from 16 on changes nothing. |
| Pic.MaskLine | kernel/arch/x86_64/interrupts.cpp:165-191 | Masking or unmasking changes the masked state of that line of the sixteen and of no other, and nothing else. |
| Pic.Disable | kernel/arch/x86_64/interrupts.cpp:159-163 | Masks all sixteen lines and changes nothing else. |
| Pic.SendEoi | kernel/arch/x86_64/interrupts.cpp:218-229 | Ends the interrupt of highest priority on the master, and on the slave for numbers from 8 on. |
| Pic.SlaveUntouched | kernel/arch/x86_64/interrupts.cpp:220-226 | The slave is left alone in every state exactly for numbers below 8, and in one state exactly then or if it serves nothing. |
| Interrupts.Install | kernel/arch/x86_64/interrupts.cpp:108-118 | The handler table has the keyboard at 33 and nothing else. |
| Interrupts.IrqInterruptHandler | kernel/arch/x86_64/interrupts.cpp:139-154 | Whatever the console's routing: the vector's handler runs, or its number is reported on the serial line to the byte; then the interrupt is ended. Only the keyboard's vector keeps the console routed to the serial line. |
| Interrupts.ServiceEnds | kernel/arch/x86_64/interrupts.cpp:218-229 | From an idle state an interrupt leaves nothing in service exactly unless it is a slave line with a vector below 8 on a slave that does not end interrupts by itself; no mask changes. |
| Interrupts.MasterEnds | kernel/arch/x86_64/interrupts.cpp:220-226 | Ending an acknowledged interrupt of the master leaves the slave alone exactly when its vector is below 8 or the slave serves nothing. |
| Interrupts.KeyboardEndsSlave | kernel/arch/x86_64/interrupts.cpp:220-226 | The keyboard's interrupt, arriving during one of the slave's first line, ends that one too. |
| Interrupts.KernelVectors | kernel/kernel.cpp:66-73 | With the kernel's offsets every vector is in 32 to 47, indexes the handler table, is ended on both chips, and is 33 only for the keyboard's line. |
| Interrupts.StepInvariant | kernel/arch/x86_64/interrupts.cpp:157-230 | Every event keeps the chips idle and updates masks and bases as the abstract state does. |
| Interrupts.RunInvariant | kernel/arch/x86_64/interrupts.cpp:139-230 | Over all runs of interrupts, mask changes and remaps: nothing stays in service, the mask registers are the set of masked lines, the bases are those of the last remap. |
| Interrupts.RunKeyboard | kernel/devices/ps2keyboard.cpp:13-37 | Over all runs the case state and the terminal are those of the history of scancodes. |
| Interrupts.BootRequests | kernel/kernel.cpp:72-77 | After boot only the keyboard, or a spurious interrupt of the master, can be delivered, as vectors 33 and 39. |
| Interrupts.EventsAfterBoot | kernel/kernel.cpp:72-80 | A sequence of interrupts can arrive after boot exactly when each is the keyboard's or a spurious one of the master. |
| Interrupts.BootRun | kernel/kernel.cpp:66-80 | Every sequence of interrupts after boot leaves the controllers unchanged, writes exactly what the scancodes type, and reports each spurious interrupt. |
| Kernel.Boot | kernel/kernel.cpp:62-78 | From a machine with all lines masked, boot leaves every stub behind its gate in 64-bit code, the kernel's offsets, only the keyboard's line unmasked and interrupts on, and its five reports on the serial line to the byte. |
| Kernel.GatesSelect | kernel/arch/x86_64/gdt.hpp:87-88 | The selector in the kernel's gates is that of the table's segment of 64-bit code. |
| Kernel.Interrupt | kernel/arch/x86_64/interrupts.cpp:139-154 | For every request and scancode: the acknowledged vector selects the gate, the program behind it builds the frame, the dispatcher serves the number in that frame, and the interrupted program finds its registers, stack and flags as they were. |
| Kernel.Wait | kernel/kernel.cpp:80 | Any finite sequence of interrupts in the kernel's last loop has the effect of the run it amounts to, and the loop goes on undisturbed. |
| Kernel.Start | kernel/kernel.cpp:62-80 | From boot on, after any interrupts that can arrive: controllers as boot left them, the terminal shows what was typed, the serial line has the boot log and the spurious reports. |
| Keyboard.Controller.IrqHandler | kernel/devices/ps2keyboard.cpp:13-37 | One scancode: the case state, and what is written; all of it goes to the terminal except a backspace while the console is routed to the serial line. Every index into the key maps is in range. |
| Keyboard.KeyboardHistory | kernel/devices/ps2keyboard.cpp:18-36 | After any history the driver's state is that of the history, at most 3, and what it writes next is what the history says: in upper case when either bit is set. |
| Keyboard.CaseKeys | kernel/devices/ps2keyboard.cpp:21-23 | By its code: 0x2A sets the shift, 0xAA clears it, 0x3A turns the caps lock over, no other code changes either; they write nothing. |
| Keyboard.LetterKeys | kernel/devices/ps2keyboard.cpp:32-36 | After any history the keys of the three letter rows write their letters, as capitals exactly when shift is down or caps lock is on. |
| Keyboard.ControlKeys | kernel/devices/ps2keyboard.cpp:25-27 | By their codes: backspace, tab, newline and space; codes above 0x3A write nothing. |
| Keyboard.SymbolKeys | kernel/devices/ps2keyboard.hpp:19-34 | What every other key writes in either case. |
| Messages.NoHandlerText | kernel/arch/x86_64/interrupts.cpp:151 | What the formatter makes of the message for an unhandled interrupt, for every vector. |
| Messages.PicRemappedText | kernel/arch/x86_64/interrupts.cpp:215 | What the formatter makes of the remap message, for all offsets. |
| Messages.TableInstalledText | kernel/arch/x86_64/idt.cpp:55-58 | What the formatter makes of the reports of both descriptor tables, for every address and size. |
| Messages.SpelledOut | kernel/arch/x86_64/interrupts.cpp:151 | The messages of the boot sequence and of a spurious interrupt, in full. |
| Messages.LiteralThen | kernel/logging.cpp:737-742 | Text without a percent sign stands for itself in every format. |
| Messages.DecimalThen | kernel/logging.cpp:906-931 | A plain `%d` stands for the decimal numeral of its argument in every format. |
| Messages.HexThen | kernel/logging.cpp:933-953 | `%#lX` stands for `0x` and the upper-case numeral of its argument, or for `0`, in every format. |
| Idt.Idt.MakeEntry | kernel/arch/x86_64/idt.cpp:11-25 | One gate is replaced, none for a vector outside the table. |
| Idt.KernelGate | kernel/arch/x86_64/idt.cpp:16-24 | The three offset fields put together give the handler's address. |
| Idt.Idt.Install | kernel/arch/x86_64/idt.cpp:27-59 | Once: the handler table, every gate as a present interrupt gate of ring 0 to the word of the stub tables for its vector, the table register, and the reports, the size read as the whole slot of the int it is passed as; a second call changes nothing. |
| Idt.LeadsThrough | kernel/arch/x86_64/idt.cpp:36 | Such a gate lets an interrupt through and turns interrupts off. |
| Gdt.Gdt.Install | kernel/arch/x86_64/gdt.cpp:26-61 | Once: the null segment and code and data of 16, 32 and 64 bits, at address zero and of ring 0, the table register and the report. |
| Gdt.Gdt.MakeEntry | kernel/arch/x86_64/gdt.cpp:8-24 | One segment is replaced, none for an index outside the table. |
| Idt.OwnStubs | kernel/arch/x86_64/isr.asm:386-392 | Vectors 32 to 254 reach their own stubs; vector 255 does exactly if the word after the table is its stub's address. |
| Idt.GatesDistinct | kernel/arch/x86_64/idt.cpp:22-24 | Gates are equal exactly when the addresses are. |
| Entry.Cpu.Run | kernel/arch/x86_64/isr.asm:61-111 | Running a program step by step is the program's meaning. |
| Entry.Cpu.EnterIrq | kernel/arch/x86_64/isr.asm:61-106 | The handler is called with the stack aligned, interrupts off, the direction flag clear, and a frame with every interrupted register, the saved state and the vector in `int_no`. |
| Entry.Cpu.ReturnIrq | kernel/arch/x86_64/isr.asm:108-111 | With the frame and the stack pointer kept, the interrupted registers, stack, position and flags are back and memory is as the handler left it. |
| Entry.ExecPushes | kernel/arch/x86_64/isr.asm:5-21 | A run of pushes stores the registers downwards and changes nothing above. |
| Entry.ExecPops | kernel/arch/x86_64/isr.asm:24-40 | A run of pops loads distinct registers upwards and changes no other. |
| Entry.Orders | kernel/arch/x86_64/cpu.hpp:11-28 | The push order, the pop order and the frame's field order fit together, for every register. |
| Entry.CommonSaves | kernel/arch/x86_64/isr.asm:100-106 | The common code saves all fifteen registers and passes their address. |
| Entry.CommonRestores | kernel/arch/x86_64/isr.asm:108-111 | The code after the handler reloads everything from the frame. |
| Entry.IrqRoundTrip | kernel/arch/x86_64/isr.asm:61-111 | For every vector: the handler sees each register in its field and the vector in `int_no`, on an aligned stack with interrupts off; with the frame intact the interrupted state is restored. |
| Entry.GateDisables | kernel/arch/x86_64/idt.cpp:36 | The handler runs with interrupts off exactly if they were off before or the gate is of the interrupt type. |
| Entry.ExceptionFrame | kernel/arch/x86_64/isr.asm:44-58 | Exception handlers find the error code in `int_no`, which is the vector only when they are equal. |
| Numerals.NumeralReads | kernel/logging.cpp:388-393 | A numeral reads back as its number, in every base up to 16. |
| Numerals.NumeralCase | kernel/logging.cpp:391 | An upper-case numeral has no digit in `a` to `f`, a lower-case one none in `A` to `F`. |
| Numerals.NumeralLength | kernel/logging.cpp:388-393 | A numeral has at most n digits exactly when the number is below base^n. |
| Numerals.LastDigits | kernel/logging.cpp:388-393 | The last n digits stand for the number modulo base^n. |

## Left out

- Floating point (`%f`, `%e`, `%g`): both builds switch it off, so these characters reach the default arm, as here.
- Formats that end inside a directive, arguments of the wrong kind, the least int or long as a signed argument, and the least int as a `*` width: undefined in the source, excluded by `Rendering.Accepts`.
- Printf.Ntoa: models the `long` and the `long long` conversion as one, because both are 64 bits wide on this target.
- Printf.ParseLength: the flag word is a record of its bits rather than an unsigned integer.
- Printf.SendSpaces: the padding loops, which the source repeats in five places, are one method.
- Pic.SetIrqMask: does not model line numbers from 40 on, for which the source shifts by 32 or more, which is undefined.
- Pic.ClearIrqMask: does not model line numbers from 40 on, for the same reason.
- Kernel.Boot: starts at the descriptor tables; the banner before them and the reload of the segment registers are not modelled.
- Kernel.Interrupt: the compiled handlers are a parameter that keeps the stack pointer and the frame; what they do to devices is the dispatcher's model.
- Entry.ExceptionFrame: makes no claim about the restoring half of the exception path, which is the same code as the IRQ one.
- 8259A features the kernel does not use: rotation, special mask mode, polling, and the request register behind a delivery.
- Interrupts that arrive in the middle of a `dprintf`: `Interrupts.IrqInterruptHandler` covers one such interrupt, the runs start with the console routed to the terminal.
- Vector 255 as an interrupt: the handler table has 255 entries.
- Raw port instructions, serial initialization and its busy wait, `halt`, boot structures, `mkl::array`, `kpanic` and the CPU exception handler: plumbing or constant tables.
