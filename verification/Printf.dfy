/** The formatter itself: a cursor over the format, a cursor over the arguments, and a sink. */
module Printf {
  import opened Text
  import opened Words
  import opened Numerals
  import opened Directives
  import opened Fields
  import opened Rendering
  import opened Sinks

  // --- The conversion buffer ---

  /** What a back-to-front buffer of `len` characters will read as. */
  ghost function Written(buf: array<char>, len: nat): (text: string)
    requires len <= buf.Length
    reads buf
    ensures |text| == len
  {
    Reverse(buf[..len])
  }

  lemma ReverseSnoc(s: string, c: char)
    ensures Reverse(s + [c]) == [c] + Reverse(s)
  {
  }

  method Push(buf: array<char>, len: nat, c: char) returns (len': nat)
    requires len < buf.Length
    modifies buf
    ensures len' == len + 1
    ensures Written(buf, len') == [c] + old(Written(buf, len))
  {
    buf[len] := c;
    len' := len + 1;
    ReverseSnoc(old(buf[..len]), c);
    assert buf[..len'] == old(buf[..len]) + [c];
  }

  method PadZeros(buf: array<char>, len: nat, n: nat) returns (len': nat)
    requires len <= buf.Length == BUFFER_SIZE
    modifies buf
    ensures len <= len' <= BUFFER_SIZE
    ensures Written(buf, len') == ZeroFill(old(Written(buf, len)), n)
  {
    hide Written, ZeroFill;
    ghost var text := Written(buf, len);
    len' := len;
    FilledTo(text, len, n);
    while len' < n && len' < BUFFER_SIZE
      invariant len <= len' <= BUFFER_SIZE
      invariant len' == len || len' <= n
      invariant Written(buf, len') == ZeroFill(text, len')
    {
      OneMoreZero(text, len');
      len' := Push(buf, len', '0');
    }
    FilledTo(text, len', n);
  }

  lemma OneMoreZero(text: string, len: nat)
    requires |text| <= len < BUFFER_SIZE
    ensures ['0'] + ZeroFill(text, len) == ZeroFill(text, len + 1)
  {
    if len == |text| {
      assert Repeat('0', 1) == ['0'];
    }
  }

  lemma FilledTo(text: string, len: nat, n: nat)
    requires |text| <= len <= BUFFER_SIZE
    ensures len == |text| ==> ZeroFill(text, len) == text
    ensures (len == |text| || len <= n) && (len >= n || len == BUFFER_SIZE) ==> ZeroFill(text, len) == ZeroFill(text, n)
  {
  }

  /** Sends spaces from position `from` of a field up to its width. */
  method SendSpaces(sink: Sink, idx: nat, from: nat, width: nat) returns (i: nat)
    requires sink.Valid() && idx == |sink.trace|
    requires idx + |Spaces(width - from)| <= sink.budget
    modifies sink.Footprint()
    ensures sink.Valid() && i == |sink.trace|
    ensures sink.trace == old(sink.trace) + Spaces(width - from)
  {
    i := idx;
    var k := from;
    while k < width
      invariant from <= k <= Max(from, width)
      invariant sink.Valid() && i == |sink.trace|
      invariant sink.trace == old(sink.trace) + Repeat(' ', k - from)
    {
      sink.Out(' ', i);
      RepeatFront(' ', k - from, old(sink.trace));
      i, k := i + 1, k + 1;
    }
  }

  /** Sends a back-to-front buffer in reading order. */
  method SendReversed(sink: Sink, idx: nat, buf: array<char>, len: nat) returns (i: nat)
    requires sink.Valid() && idx == |sink.trace| && buf !in sink.Footprint()
    requires len <= buf.Length && idx + len <= sink.budget
    modifies sink.Footprint()
    ensures sink.Valid() && i == |sink.trace|
    ensures sink.trace == old(sink.trace) + Written(buf, len)
  {
    hide Sink.Valid;
    ghost var text := Written(buf, len);
    i := idx;
    var len' := len;
    while len' > 0
      invariant 0 <= len' <= len == |text|
      invariant sink.Valid() && i == |sink.trace| == idx + len - len'
      invariant sink.trace == old(sink.trace) + text[..len - len']
    {
      len' := len' - 1;
      assert buf[len'] == text[len - 1 - len'];
      sink.Out(buf[len'], i);
      i := i + 1;
    }
    assert text[..len] == text;
  }

  /** Sends a back-to-front buffer in reading order, in a field of `width` characters. */
  method OutRev(sink: Sink, idx: nat, buf: array<char>, len: nat, width: nat, f: Flags) returns (i: nat)
    requires sink.Valid() && idx == |sink.trace| && buf !in sink.Footprint()
    requires len <= buf.Length
    requires idx + |Aligned(Written(buf, len), width, f)| <= sink.budget
    modifies sink.Footprint()
    ensures sink.Valid() && i == |sink.trace|
    ensures sink.trace == old(sink.trace) + Aligned(Written(buf, len), width, f)
  {
    hide Sink.Valid, Repeat;
    ghost var text, pad := Written(buf, len), Spaces(width - len);
    assert |text| == len && |pad| == Max(width - len, 0);
    assert Aligned(text, width, f) == if f.left then text + pad else if f.zeropad then text else pad + text;
    hide Aligned, Spaces, Written;
    Regroup(sink.trace, text, pad);
    Regroup(sink.trace, pad, text);
    i := idx;
    if !f.left && !f.zeropad {
      i := SendSpaces(sink, i, len, width);
    }
    i := SendReversed(sink, i, buf, len);
    if f.left {
      i := SendSpaces(sink, i, i - idx, width);
    }
  }

  lemma FieldOf(digits: string, negative: bool, base: nat, prec: nat, width: nat, f: Flags)
    ensures var inner := InnerWidth(width, negative, f);
            FormattedField(digits, negative, base, prec, width, f)
            == Aligned(Content(digits, negative, base, prec, inner, f), inner, f)
  {
    hide Aligned, Content;
  }

  /** Completes a number: zeros, prefix, sign, and out. */
  method NtoaFormat(sink: Sink, idx: nat, buf: array<char>, len: nat, negative: bool,
                    base: nat, prec: nat, width: nat, f: Flags)
    returns (i: nat)
    requires sink.Valid() && idx == |sink.trace| && buf !in sink.Footprint()
    requires len <= buf.Length == BUFFER_SIZE
    requires idx + |FormattedField(Written(buf, len), negative, base, prec, width, f)| <= sink.budget
    modifies sink.Footprint(), buf
    ensures sink.Valid() && i == |sink.trace|
    ensures sink.trace == old(sink.trace) + FormattedField(old(Written(buf, len)), negative, base, prec, width, f)
  {
    hide FormattedField, Aligned, Content;
    var inner, n := Build(buf, len, negative, base, prec, width, f);
    ghost var content := Content(old(Written(buf, len)), negative, base, prec, inner, f);
    FieldOf(old(Written(buf, len)), negative, base, prec, width, f);
    i := OutRev(sink, idx, buf, n, inner, f);
  }

  /** The steps that precede the output: the inner width and the buffer they leave. */
  method Build(buf: array<char>, len: nat, negative: bool, base: nat, prec: nat, width: nat, f: Flags)
    returns (inner: nat, n: nat)
    requires len <= buf.Length == BUFFER_SIZE
    modifies buf
    ensures n <= BUFFER_SIZE && inner == InnerWidth(width, negative, f)
    ensures Written(buf, n) == Content(old(Written(buf, len)), negative, base, prec, inner, f)
  {
    ghost var digits := Written(buf, len);
    inner, n := width, len;
    if !f.left {
      if width > 0 && f.zeropad && (negative || f.plus || f.space) {
        inner := inner - 1;
      }
      n := PadZeros(buf, n, prec);
      if f.zeropad {
        n := PadZeros(buf, n, inner);
      }
    }
    hide ZeroFill;
    ghost var padded := Padded(digits, prec, inner, f);
    assert Written(buf, n) == padded;
    hide Padded, Cut, Prefixed;
    if f.hash {
      n := HashPrefix(buf, n, base, prec, inner, f);
    }
    ghost var hashed := Hashed(padded, base, prec, inner, f);
    assert Written(buf, n) == hashed;
    hide Hashed;
    assert |hashed| == n;
    assert "" + hashed == hashed;
    if n < BUFFER_SIZE {
      if negative {
        n := Push(buf, n, '-');
      } else if f.plus {
        n := Push(buf, n, '+');
      } else if f.space {
        n := Push(buf, n, ' ');
      }
    }
  }

  /** The `#` flag: takes characters back from a full field and puts the base's prefix in front. */
  method HashPrefix(buf: array<char>, len: nat, base: nat, prec: nat, width: nat, f: Flags) returns (n: nat)
    requires len <= buf.Length == BUFFER_SIZE && f.hash
    modifies buf
    ensures n <= BUFFER_SIZE
    ensures Written(buf, n) == Hashed(old(Written(buf, len)), base, prec, width, f)
  {
    n := len;
    ghost var text := Written(buf, len);
    if !f.precision && n > 0 && (n == prec || n == width) {
      n := n - 1;
      if n > 0 && base == 16 {
        n := n - 1;
      }
    }
    assert len - n == CutCount(|text|, base, prec, width, f);
    assert Written(buf, n) == text[len - n..];
    CutDrops(text, base, prec, width, f);
    hide Cut, Written, CutCount;
    if base == 16 && n < BUFFER_SIZE {
      n := Push(buf, n, 'x');
    } else if base == 2 && n < BUFFER_SIZE {
      n := Push(buf, n, 'b');
    }
    if n < BUFFER_SIZE {
      n := Push(buf, n, '0');
    }
  }

  /** Converts a number of at most 64 bits, digit by digit from the right. */
  method Ntoa(sink: Sink, idx: nat, value: uint64, negative: bool, base: nat, prec: nat, width: nat, flags: Flags)
    returns (i: nat)
    requires sink.Valid() && idx == |sink.trace| && 2 <= base <= 16
    requires idx + |IntField(value, negative, base, prec, width, flags)| <= sink.budget
    modifies sink.Footprint()
    ensures sink.Valid() && i == |sink.trace|
    ensures sink.trace == old(sink.trace) + IntField(value, negative, base, prec, width, flags)
  {
    var buf := new char[BUFFER_SIZE];
    var f := if value == 0 then flags.(hash := false) else flags;
    var len := 0;
    if !f.precision || value != 0 {
      len := StoreDigits(buf, value, base, f);
    }
    assert Written(buf, len) == StoredDigits(value, base, f);
    hide StoredDigits, FormattedField;
    i := NtoaFormat(sink, idx, buf, len, negative, base, prec, width, f);
  }

  /** The conversion loop: the last 32 digits of the number. */
  method StoreDigits(buf: array<char>, value: uint64, base: nat, f: Flags) returns (len: nat)
    requires buf.Length == BUFFER_SIZE && 2 <= base <= 16
    modifies buf
    ensures 0 < len <= BUFFER_SIZE
    ensures Written(buf, len) == LastN(Numeral(value, base, f.uppercase), BUFFER_SIZE)
  {
    len := 0;
    assert Written(buf, 0) == "";
    hide Written, Numeral;
    var v: nat := value;
    var more := true;
    ghost var whole := Numeral(value, base, f.uppercase);
    ghost var done := "";
    assert whole + done == whole;
    while more
      invariant len <= BUFFER_SIZE && (more ==> len < BUFFER_SIZE)
      invariant done == Written(buf, len)
      invariant |done| == len
      invariant if len > 0 && v == 0 then whole == done && !more
                else whole == Numeral(v, base, f.uppercase) + done && (!more ==> len == BUFFER_SIZE)
      decreases v, more
    {
      DivMod(v, base);
      NumeralStep(v, base, f.uppercase, done);
      var digit := v % base;
      var c := if digit < 10 then '0' + digit as char
               else (if f.uppercase then 'A' else 'a') + (digit - 10) as char;
      len := Push(buf, len, c);
      done := [c] + done;
      v := v / base;
      more := v != 0 && len < BUFFER_SIZE;
    }
    NumeralReads(v, base, f.uppercase);
    assert LastN(whole, BUFFER_SIZE) == done;
  }

  /** One round of the conversion loop moves one digit from the number to the text. */
  lemma NumeralStep(v: nat, base: nat, upper: bool, done: string)
    requires 2 <= base <= 16
    ensures var text := [DigitChar(v % base, upper)] + done;
            Numeral(v, base, upper) + done
            == if v / base == 0 then text else Numeral(v / base, base, upper) + text
  {
    DivMod(v, base);
    if v < base {
      ModUnique(v, 0, base, v);
    } else {
      var hi, c := Numeral(v / base, base, upper), [DigitChar(v % base, upper)];
      assert Numeral(v, base, upper) == hi + c;
      assert hi + c + done == hi + (c + done);
    }
  }

  // --- The directive parser ---

  /** The character under the cursor; the terminator at the end. */
  function CharAt(format: string, pos: nat): (c: char)
    requires pos <= |format|
    ensures c == Head(format[pos..])
  {
    if pos < |format| then format[pos] else '\0'
  }

  /** The flag loop. */
  method ParseFlags(format: string, pos: nat) returns (f: Flags, p: nat)
    requires pos <= |format|
    ensures p == pos + FlagRun(format[pos..]) && p <= |format|
    ensures f == FlagsOf(format[pos..p])
  {
    f, p := NO_FLAGS, pos;
    var more := true;
    ghost var run, s := "", format[pos..];
    assert FlagsOf(run) == NO_FLAGS;
    hide FlagsOf, SetFlag, FlagRun, IsFlag;
    while more
      invariant pos <= p <= |format| && s == format[p..] && run == format[pos..p]
      invariant f == FlagsOf(run)
      invariant FlagRun(format[pos..]) == p - pos + FlagRun(s)
      invariant !more ==> FlagRun(s) == 0
      decreases |format| - p, more
    {
      var c := CharAt(format, p);
      FlagRunStep(s);
      if c == '0' || c == '-' || c == '+' || c == ' ' || c == '#' {
        FlagsSnoc(run, c);
        run, s := run + [c], s[1..];
        f := SetFlag(f, c);
        p := p + 1;
      } else {
        more := false;
      }
    }
  }

  lemma FlagRunStep(s: string)
    ensures var c := Head(s);
            if c == '0' || c == '-' || c == '+' || c == ' ' || c == '#'
            then s != "" && FlagRun(s) == 1 + FlagRun(s[1..])
            else FlagRun(s) == 0
  {
  }

  /** Decimal digits to an unsigned int, with its wrap-around. */
  method Atoi(format: string, pos: nat) returns (n: uint32, p: nat)
    requires pos <= |format|
    ensures pos <= p <= |format|
    ensures (n, format[p..]) == NumberAt(format[pos..])
  {
    hide Value, DigitRun, NumberAt, CharAt, IsDigit;
    n, p := 0, pos;
    ghost var s := format[pos..];
    NoDigits(s);
    CharIsHead(format, p);
    while IsDigit(CharAt(format, p))
      invariant pos <= p <= |format|
      invariant CharAt(format, p) == Head(format[p..])
      invariant DigitRun(s) == p - pos + DigitRun(format[p..])
      invariant n == Value(s[..p - pos], 10) % U32
      decreases |format| - p
    {
      var c := CharAt(format, p);
      DigitRunStep(format[p..]);
      assert format[p..][1..] == format[p + 1..];
      NextDigit(s, p - pos, n);
      n := NextNumber(n, c);
      p := p + 1;
      CharIsHead(format, p);
    }
    DigitRunStep(format[p..]);
    assert s[p - pos..] == format[p..];
    NumberEnds(s, p - pos, n);
  }

  /** One more digit of a number modulo 2^32. */
  function NextNumber(n: uint32, c: char): uint32
    requires IsDigit(c)
  {
    (n * 10 + (c - '0') as int) % U32
  }

  lemma NoDigits(s: string)
    ensures Value(s[..0], 10) == 0 && s[0..] == s
  {
  }

  lemma CharIsHead(format: string, p: nat)
    requires p <= |format|
    ensures CharAt(format, p) == Head(format[p..])
  {
  }

  lemma NumberEnds(s: string, k: nat, n: nat)
    requires k == DigitRun(s) && n == Value(s[..k], 10) % U32
    ensures (n, s[k..]) == NumberAt(s)
  {
  }

  lemma NextDigit(s: string, k: nat, n: nat)
    requires k < |s| && IsDigit(s[k]) && n == Value(s[..k], 10) % U32
    ensures NextNumber(n, s[k]) == Value(s[..k + 1], 10) % U32
  {
    hide Value;
    assert s[..k + 1] == s[..k] + [s[k]];
    ValueSnoc(s[..k], s[k], 10);
    AtoiStep(Value(s[..k], 10), (s[k] - '0') as nat);
  }

  lemma DigitRunStep(s: string)
    ensures DigitRun(s) == if IsDigit(Head(s)) then 1 + DigitRun(s[1..]) else 0
    ensures IsDigit(Head(s)) ==> s != ""
  {
  }

  lemma AtoiStep(v: nat, d: nat)
    ensures ((v % U32) * 10 + d) % U32 == (v * 10 + d) % U32
  {
    var q := v / U32;
    assert v * 10 + d == (v % U32) * 10 + d + U32 * (q * 10);
    ModShift((v % U32) * 10 + d, q * 10);
  }

  lemma ModShift(a: nat, k: nat)
    ensures (a + U32 * k) % U32 == a % U32
  {
  }

  /** The width field; a negative argument is a left-aligned width. */
  method ParseWidth(format: string, pos: nat, args: seq<Arg>, ap: nat, flags: Flags)
    returns (width: uint32, f: Flags, p: nat, a: nat)
    requires pos <= |format| && ap <= |args|
    requires FieldAt(format[pos..]).0 == Star ==> ap < |args| && StarFits(args[ap])
    ensures var (field, rest) := FieldAt(format[pos..]);
            && pos <= p <= |format| && format[p..] == rest
            && a == ap + Count(field == Star)
            && width == Magnitude(FieldValue(field, args[ap..]))
            && f == flags.(left := flags.left || FieldValue(field, args[ap..]) < 0)
  {
    width, f, p, a := 0, flags, pos, ap;
    if IsDigit(CharAt(format, pos)) {
      width, p := Atoi(format, pos);
    } else if CharAt(format, pos) == '*' {
      var w := Signed(args[a].bits, U32);
      a := a + 1;
      if w < 0 {
        f := f.(left := true);
        width := -w;
      } else {
        width := w;
      }
      p := p + 1;
    }
  }

  /** The precision field; a negative argument is a precision of zero. */
  method ParsePrecision(format: string, pos: nat, args: seq<Arg>, ap: nat, flags: Flags)
    returns (precision: uint32, f: Flags, p: nat, a: nat)
    requires pos <= |format| && ap <= |args|
    requires PrecisionAt(format[pos..]).0 == Precision(Star) ==> ap < |args| && args[ap].Word?
    ensures var (field, rest) := PrecisionAt(format[pos..]);
            && pos <= p <= |format| && format[p..] == rest
            && a == ap + Count(field == Precision(Star))
            && precision == (if field.NoPrecision? then 0 else Max(FieldValue(field.field, args[ap..]), 0))
            && f == flags.(precision := flags.precision || field != NoPrecision)
  {
    precision, f, p, a := 0, flags, pos, ap;
    if CharAt(format, pos) == '.' {
      f := f.(precision := true);
      p := p + 1;
      if IsDigit(CharAt(format, p)) {
        precision, p := Atoi(format, p);
      } else if CharAt(format, p) == '*' {
        var v := Signed(args[a].bits, U32);
        a := a + 1;
        precision := if v > 0 then v else 0;
        p := p + 1;
      }
    }
  }

  /** The length field. `t`, `j` and `z` name types as wide as a long. */
  method ParseLength(format: string, pos: nat) returns (size: Size, p: nat)
    requires pos <= |format|
    ensures pos <= p <= |format|
    ensures format[p..] == LengthAt(format[pos..]).1
    ensures size == SizeOf(LengthAt(format[pos..]).0)
  {
    size, p := NO_SIZE, pos;
    match CharAt(format, pos)
    case 'l' =>
      size := size.(long := true);
      p := p + 1;
      if CharAt(format, p) == 'l' {
        size := size.(longLong := true);
        p := p + 1;
      }
    case 'h' =>
      size := size.(short := true);
      p := p + 1;
      if CharAt(format, p) == 'h' {
        size := size.(chr := true);
        p := p + 1;
      }
    case 't' =>
      size := size.(long := true);
      p := p + 1;
    case 'j' =>
      size := size.(long := true);
      p := p + 1;
    case 'z' =>
      size := size.(long := true);
      p := p + 1;
    case _ =>
  }

  // --- Conversions ---

  method SelectBase(conversion: char) returns (base: nat)
    ensures base == BaseOf(conversion)
  {
    if conversion == 'x' || conversion == 'X' {
      base := 16;
    } else if conversion == 'o' {
      base := 8;
    } else if conversion == 'b' {
      base := 2;
    } else {
      base := 10;
    }
  }

  /** Clears and sets the flags that a conversion does not leave to the directive. */
  method AdjustFlags(conversion: char, base: nat, flags: Flags) returns (f: Flags)
    requires base == BaseOf(conversion)
    ensures f == ConversionFlags(conversion, flags)
  {
    hide BaseOf;
    var hash, uppercase, plus, space, zeropad := flags.hash, flags.uppercase, flags.plus, flags.space, flags.zeropad;
    if base == 10 {
      hash := false;
    }
    if conversion == 'X' {
      uppercase := true;
    }
    if conversion != 'i' && conversion != 'd' {
      plus, space := false, false;
    }
    if flags.precision {
      zeropad := false;
    }
    f := flags.(hash := hash, uppercase := uppercase, plus := plus, space := space, zeropad := zeropad);
  }

  /** Takes an integer argument at the width of its length modifier. */
  method TakeInteger(conversion: char, f: Flags, bits: uint64) returns (value: int)
    ensures value == IntegerArg(conversion, ArgRange(f.size), bits)
  {
    if conversion == 'i' || conversion == 'd' {
      if f.size.longLong {
        value := Signed(bits, U64);
      } else if f.size.long {
        value := Signed(bits, U64);
      } else {
        value := if f.size.chr then Signed(bits, U8) else if f.size.short then Signed(bits, U16) else Signed(bits, U32);
      }
    } else {
      if f.size.longLong {
        value := bits;
      } else if f.size.long {
        value := bits;
      } else {
        value := if f.size.chr then bits % U8 else if f.size.short then bits % U16 else bits % U32;
      }
    }
  }

  /** Prints an integer argument. */
  method FormatInteger(sink: Sink, idx: nat, conversion: char, flags: Flags, width: nat, prec: nat, bits: uint64)
    returns (i: nat)
    requires sink.Valid() && idx == |sink.trace| && IsInteger(conversion)
    requires IsSigned(conversion) && ArgRange(flags.size) >= U32 ==>
               -ArgRange(flags.size) < 2 * Signed(bits, ArgRange(flags.size))
    requires idx + |IntegerText(conversion, flags, width, prec, bits)| <= sink.budget
    modifies sink.Footprint()
    ensures sink.Valid() && i == |sink.trace|
    ensures sink.trace == old(sink.trace) + IntegerText(conversion, flags, width, prec, bits)
  {
    hide IntField, IntegerArg, ConversionFlags, BaseOf, ArgRange, Signed;
    var base := SelectBase(conversion);
    var f := AdjustFlags(conversion, base, flags);
    var value := TakeInteger(conversion, flags, bits);
    IntegerArgBound(conversion, ArgRange(flags.size), bits);
    i := Ntoa(sink, idx, if value > 0 then value else 0 - value, value < 0, base, prec, width, f);
  }

  lemma IntegerArgBound(conversion: char, range: int, bits: uint64)
    requires range in {U8, U16, U32, U64}
    ensures Magnitude(IntegerArg(conversion, range, bits)) < U64
  {
  }

  method FormatChar(sink: Sink, idx: nat, f: Flags, width: nat, bits: uint64) returns (i: nat)
    requires sink.Valid() && idx == |sink.trace|
    requires idx + |CharText(f, width, bits)| <= sink.budget
    modifies sink.Footprint()
    ensures sink.Valid() && i == |sink.trace|
    ensures sink.trace == old(sink.trace) + CharText(f, width, bits)
  {
    i := idx;
    if !f.left {
      i := SendSpaces(sink, i, 1, width);
    }
    sink.Out((bits % U8) as char, i);
    i := i + 1;
    if f.left {
      i := SendSpaces(sink, i, 1, width);
    }
  }

  /** The length of a C string, looked for in at most `maxsize` characters. */
  method Strnlen(s: string, maxsize: nat) returns (n: uint32)
    requires '\0' !in s
    ensures n == Min(|s|, maxsize) % U32
  {
    var p, left := 0, maxsize;
    while p < |s| && left > 0
      invariant 0 <= p <= |s|
      invariant p + left == maxsize
    {
      left := left - 1;
      p := p + 1;
    }
    n := p % U32;
  }

  method FormatString(sink: Sink, idx: nat, f: Flags, width: nat, prec: uint32, s: string) returns (i: nat)
    requires sink.Valid() && idx == |sink.trace| && '\0' !in s
    requires f.precision || prec == 0
    requires idx + |StringText(f, width, prec, s)| <= sink.budget
    modifies sink.Footprint()
    ensures sink.Valid() && i == |sink.trace|
    ensures sink.trace == old(sink.trace) + StringText(f, width, prec, s)
  {
    ghost var shown := if f.precision then s[..Min(|s|, prec)] else s;
    ghost var pad := Spaces(width - |shown|);
    assert StringText(f, width, prec, s) == if f.left then shown + pad else pad + shown;
    assert |shown| <= |StringText(f, width, prec, s)|;
    hide StringText, Spaces, Sink.Valid;
    var l := Strnlen(s, if prec > 0 then prec else SIZE_MAX);
    if f.precision {
      l := if l < prec then l else prec;
    }
    assert l == |shown|;
    i := idx;
    if !f.left {
      i := SendSpaces(sink, i, l, width);
    }
    i := SendText(sink, i, f, prec, s);
    if f.left {
      i := SendSpaces(sink, i, l, width);
    }
  }

  /** Sends a string, up to the precision if there is one. */
  method SendText(sink: Sink, idx: nat, f: Flags, prec: uint32, s: string) returns (i: nat)
    requires sink.Valid() && idx == |sink.trace|
    requires idx + (if f.precision then Min(|s|, prec) else |s|) <= sink.budget
    modifies sink.Footprint()
    ensures sink.Valid() && i == |sink.trace|
    ensures sink.trace == old(sink.trace) + (if f.precision then s[..Min(|s|, prec)] else s)
  {
    hide Sink.Valid;
    i := idx;
    ghost var n := if f.precision then Min(|s|, prec) else |s|;
    var p, precision := 0, prec;
    while p < |s| && (!f.precision || precision > 0)
      invariant 0 <= p <= n && precision == if f.precision then prec - p else prec
      invariant sink.Valid() && i == |sink.trace| == idx + p
      invariant sink.trace == old(sink.trace) + s[..p]
      decreases |s| - p
    {
      if f.precision {
        precision := precision - 1;
      }
      assert s[..p + 1] == s[..p] + [s[p]];
      sink.Out(s[p], i);
      i, p := i + 1, p + 1;
    }
    assert s[..|s|] == s;
  }

  method FormatPointer(sink: Sink, idx: nat, f: Flags, prec: nat, bits: uint64) returns (i: nat)
    requires sink.Valid() && idx == |sink.trace|
    requires idx + |PointerText(f, prec, bits)| <= sink.budget
    modifies sink.Footprint()
    ensures sink.Valid() && i == |sink.trace|
    ensures sink.trace == old(sink.trace) + PointerText(f, prec, bits)
  {
    hide IntField;
    i := Ntoa(sink, idx, bits, false, 16, prec, 16, f.(zeropad := true, uppercase := true));
  }

  /** The conversion switch; the default arm sends the character itself. */
  method FormatValue(sink: Sink, idx: nat, conversion: char, f: Flags, width: nat, prec: uint32,
                     args: seq<Arg>, ap: nat)
    returns (i: nat, a: nat)
    requires sink.Valid() && idx == |sink.trace| && ap <= |args|
    requires ValueFits(conversion, ArgRange(f.size), args[ap..])
    requires f.precision || prec == 0
    requires idx + |ConversionText(conversion, f, width, prec, args[ap..])| <= sink.budget
    modifies sink.Footprint()
    ensures sink.Valid() && i == |sink.trace| && a == ap + Count(TakesArgument(conversion))
    ensures sink.trace == old(sink.trace) + ConversionText(conversion, f, width, prec, args[ap..])
  {
    hide IntegerText, CharText, StringText, PointerText, ArgRange;
    a := ap;
    if IsInteger(conversion) {
      i := FormatInteger(sink, idx, conversion, f, width, prec, args[a].bits);
      a := a + 1;
    } else if conversion == 'c' {
      i := FormatChar(sink, idx, f, width, args[a].bits);
      a := a + 1;
    } else if conversion == 's' {
      i := FormatString(sink, idx, f, width, prec, args[a].s);
      a := a + 1;
    } else if conversion == 'p' {
      i := FormatPointer(sink, idx, f, prec, args[a].bits);
      a := a + 1;
    } else {
      sink.Out(conversion, idx);
      i := idx + 1;
    }
  }

  // --- Directives and formats ---

  /** The sections of a directive up to its conversion, with the `*` arguments they take. */
  method ParseDirective(format: string, pos: nat, args: seq<Arg>, ap: nat, ghost d: Directive,
                        ghost n: nat, ghost s2: string, ghost s3: string, ghost s4: string)
    returns (f: Flags, width: uint32, prec: uint32, p: nat, a: nat)
    requires pos <= |format| && ap <= |args|
    requires n == FlagRun(format[pos..]) && d.flags == FlagsOf(format[pos..][..n]) && !d.flags.precision
    requires FieldAt(format[pos..][n..]) == (d.width, s2)
    requires PrecisionAt(s2) == (d.precision, s3)
    requires LengthAt(s3) == (d.length, s4) && Head(s4) == d.conversion != '\0'
    requires ap + Count(d.width == Star) + Count(d.precision == Precision(Star)) <= |args|
    requires d.width == Star ==> StarFits(args[ap])
    requires d.precision == Precision(Star) ==> args[ap + Count(d.width == Star)].Word?
    ensures pos <= p < |format| && format[p..] == s4
    ensures a == ap + Count(d.width == Star) + Count(d.precision == Precision(Star))
    ensures f == d.flags.(left := d.flags.left || FieldValue(d.width, args[ap..]) < 0,
                          precision := d.precision != NoPrecision, size := SizeOf(d.length))
    ensures width == Magnitude(FieldValue(d.width, args[ap..]))
    ensures prec == if d.precision == NoPrecision then 0
                    else Max(FieldValue(d.precision.field, args[ap + Count(d.width == Star)..]), 0)
  {
    hide FieldAt, PrecisionAt, LengthAt, FieldValue, SizeOf, FlagsOf, FlagRun, StarFits;
    var flags;
    flags, p := ParseFlags(format, pos);
    assert format[pos..p] == format[pos..][..n] && format[p..] == format[pos..][n..];
    width, f, p, a := ParseWidth(format, p, args, ap, flags);
    prec, f, p, a := ParsePrecision(format, p, args, a, f);
    var size;
    size, p := ParseLength(format, p);
    f := f.(size := size);
  }

  /** The sections of a directive, each starting where the one before it stops. */
  lemma Sections(s: string, d: Directive, rest: string) returns (n: nat, s2: string, s3: string, s4: string)
    requires (d, rest) == DirectiveAt(s)
    ensures n == FlagRun(s) <= |s| && d.flags == FlagsOf(s[..n]) && !d.flags.precision
    ensures FieldAt(s[n..]) == (d.width, s2)
    ensures PrecisionAt(s2) == (d.precision, s3)
    ensures LengthAt(s3) == (d.length, s4)
    ensures Head(s4) == d.conversion && Tail(s4) == rest
  {
    hide FlagRun, FieldAt, PrecisionAt, LengthAt;
    n := FlagRun(s);
    s2 := FieldAt(s[n..]).1;
    s3 := PrecisionAt(s2).1;
    s4 := LengthAt(s3).1;
  }

  lemma StarsFit(d: Directive, args: seq<Arg>)
    requires Fits(d, args)
    ensures |args| >= Arity(d)
    ensures d.width == Star ==> StarFits(args[0])
    ensures d.precision == Precision(Star) ==> args[Count(d.width == Star)].Word?
  {
    hide ValueFits, StarFits, ArgRange;
  }

  /** One directive, from just after its percent sign. */
  method FormatDirective(sink: Sink, idx: nat, format: string, pos: nat, args: seq<Arg>, ap: nat,
                         ghost d: Directive, ghost rest: string)
    returns (i: nat, p: nat, a: nat)
    requires sink.Valid() && idx == |sink.trace|
    requires pos <= |format| && ap <= |args|
    requires (d, rest) == DirectiveAt(format[pos..]) && d.conversion != '\0'
    requires Fits(d, args[ap..])
    requires idx + |DirectiveText(d, args[ap..])| <= sink.budget
    modifies sink.Footprint()
    ensures sink.Valid() && i == |sink.trace|
    ensures pos < p <= |format| && format[p..] == rest
    ensures a == ap + Arity(d) && a <= |args|
    ensures sink.trace == old(sink.trace) + DirectiveText(d, args[ap..])
  {
    hide DirectiveAt, Sink.Valid, ConversionText, ArgRange, Fits, FieldAt, PrecisionAt, LengthAt, FlagsOf, FlagRun;
    ghost var n, s2, s3, s4 := Sections(format[pos..], d, rest);
    StarsFit(d, args[ap..]);
    var f, width, prec, q, b := ParseDirective(format, pos, args, ap, d, n, s2, s3, s4);
    FieldsOf(d, args[ap..], f, width, prec);
    assert args[b..] == ValueArgs(d, args[ap..]);
    assert format[q] == d.conversion && format[q + 1..] == rest;
    hide DirectiveText, FieldValue;
    i, a := FormatValue(sink, idx, format[q], f, width, prec, args, b);
    p := q + 1;
  }

  /** The parsed fields are those the directive's text is made with. */
  lemma FieldsOf(d: Directive, args: seq<Arg>, f: Flags, width: nat, prec: nat)
    requires Fits(d, args)
    requires f == d.flags.(left := d.flags.left || FieldValue(d.width, args) < 0,
                           precision := d.precision != NoPrecision, size := SizeOf(d.length))
    requires width == Magnitude(FieldValue(d.width, args))
    requires prec == if d.precision == NoPrecision then 0
                     else Max(FieldValue(d.precision.field, args[Count(d.width == Star)..]), 0)
    ensures ValueFits(d.conversion, ArgRange(f.size), ValueArgs(d, args))
    ensures DirectiveText(d, args) == ConversionText(d.conversion, f, width, prec, ValueArgs(d, args))
  {
    hide ConversionText, FieldValue, ValueFits, SizeOf;
  }

  /**
   The outer loop. What it hands to the sink is the rendering of the parsed format, the number
   it returns is that text's length, and its last act is the terminator.
   */
  method Vsnprintf(sink: Sink, format: string, args: seq<Arg>) returns (ret: int)
    requires '\0' !in format && Accepts(format, args)
    requires sink.Valid() && sink.trace == "" && sink.budget == |Formatted(format, args)|
    requires sink.maxlen <= SIZE_MAX
    modifies sink.Footprint()
    ensures sink.trace == Formatted(format, args) && ret == |Formatted(format, args)|
    ensures sink.out == OutBuffer ==>
              && (sink.maxlen <= |sink.cells| || |sink.trace| < |sink.cells|)
              && sink.buffer[..] == Terminated(sink.cells, sink.trace, sink.maxlen)
    ensures sink.out != OutBuffer ==> sink.Valid()
  {
    hide Sink.Valid, DirectiveAt, Fits, DirectiveText, Terminated, Arity, Formatted, Accepts;
    ghost var whole := Formatted(format, args);
    var idx, pos, ap := 0, 0, 0;
    assert format[0..] == format && args[0..] == args;
    assert sink.trace + whole == whole;
    while CharAt(format, pos) != '\0'
      invariant pos <= |format| && ap <= |args|
      invariant Accepts(format[pos..], args[ap..])
      invariant sink.Valid() && idx == |sink.trace|
      invariant sink.trace + Formatted(format[pos..], args[ap..]) == whole
      decreases |format| - pos
    {
      ghost var s, rest, sent := format[pos..], args[ap..], sink.trace;
      NextPiece(s, rest);
      assert s[1..] == format[pos + 1..];
      if CharAt(format, pos) != '%' {
        Regroup(sent, [s[0]], Formatted(s[1..], rest));
        sink.Out(format[pos], idx);
        idx, pos := idx + 1, pos + 1;
      } else {
        ghost var (d, after) := DirectiveAt(s[1..]);
        Regroup(sent, DirectiveText(d, rest), Formatted(after, rest[Arity(d)..]));
        pos := pos + 1;
        idx, pos, ap := FormatDirective(sink, idx, format, pos, args, ap, d, after);
        assert rest[Arity(d)..] == args[ap..];
      }
    }
    EmptyFormat(args[ap..]);
    sink.Finish(idx);
    ret := idx;
  }

  lemma EmptyFormat(args: seq<Arg>)
    requires Accepts("", args)
    ensures Formatted("", args) == ""
  {
  }

  /** The first piece of a format, and what remains to be accepted and rendered after it. */
  lemma NextPiece(s: string, args: seq<Arg>)
    requires s != "" && Accepts(s, args)
    ensures s[0] != '%' ==>
              Accepts(s[1..], args) && Formatted(s, args) == [s[0]] + Formatted(s[1..], args)
    ensures s[0] == '%' ==>
              var (d, rest) := DirectiveAt(s[1..]);
              && d.conversion != '\0' && Fits(d, args) && Arity(d) <= |args|
              && Accepts(rest, args[Arity(d)..])
              && Formatted(s, args) == DirectiveText(d, args) + Formatted(rest, args[Arity(d)..])
  {
    hide DirectiveAt, Fits, DirectiveText, Arity;
    var ps := Parse(s);
    assert ps[0] in ps;
    assert forall p <- ps[1..] :: p in ps;
    if s[0] != '%' {
      assert ps[1..] == Parse(s[1..]);
      assert args[0..] == args;
    } else {
      assert ps[1..] == Parse(DirectiveAt(s[1..]).1);
    }
  }
}
