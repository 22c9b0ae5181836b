/** The messages of the shared-buffer protocol: how the driver prints a buffer's place for
    the coprocessor, how the coprocessor reads it, and how the driver reads the
    coprocessor's reports. */
module SdbText {
  import opened Words

  const INT_MAX: int := 0x7FFF_FFFF

  datatype Error = EINVAL | ERANGE | EFAULT | ENOMEM | EAGAIN

  datatype Result<T> = Ok(value: T) | Err(error: Error)

  type Base = b: nat | b == 10 || b == 16 witness 10

  // ---------------------------------------------------------------------- numerals

  const DIGITS: string := "0123456789abcdef"

  function Digit(d: nat): char
    requires d < 16
  {
    DIGITS[d]
  }

  /** The value of a digit, upper-case letters included; 16 for any other character. */
  function DigitValue(c: char): (d: nat)
    ensures d <= 16
  {
    if '0' <= c <= '9' then c as int - '0' as int
    else if 'a' <= c <= 'f' then c as int - 'a' as int + 10
    else if 'A' <= c <= 'F' then c as int - 'A' as int + 10
    else 16
  }

  /** %d of a non-negative number */
  function Decimal(n: nat): (s: string)
    ensures |s| > 0
  {
    (if n < 10 then [] else Decimal(n / 10)) + [Digit(n % 10)]
  }

  /** %d */
  function PrintInt(n: int): string {
    if n < 0 then "-" + Decimal(-n) else Decimal(n)
  }

  /** The k low hexadecimal digits of n; eight of them are %08x of a 32-bit number. */
  function Hex(n: nat, k: nat): (s: string)
    ensures |s| == k
  {
    if k == 0 then [] else Hex(n / 16, k - 1) + [Digit(n % 16)]
  }

  /** The number a text of digits stands for. */
  function Value(s: string, base: Base): nat {
    if s == [] then 0 else Value(s[..|s| - 1], base) * base + DigitValue(s[|s| - 1])
  }

  ghost predicate AllDigits(s: string, base: Base) {
    forall i: nat | i < |s| :: DigitValue(s[i]) < base
  }

  /** How many digits a text starts with. */
  function DigitCount(s: string, base: Base): (k: nat)
    ensures k <= |s|
    ensures AllDigits(s[..k], base)
    ensures k < |s| ==> DigitValue(s[k]) >= base
  {
    if s == [] || DigitValue(s[0]) >= base then 0
    else
      var k := DigitCount(s[1..], base) + 1;
      assert s[..k] == [s[0]] + s[1..][..k - 1];
      k
  }

  lemma DigitCountOfDigits(s: string, base: Base)
    requires AllDigits(s, base)
    ensures DigitCount(s, base) == |s|
  {
  }

  lemma DigitsRead(d: nat)
    requires d < 16
    ensures DigitValue(Digit(d)) == d
    ensures Digit(d) != 'L' && Digit(d) != 'A' && Digit(d) != '-' && Digit(d) != '+'
    ensures '0' <= Digit(d) <= '9' || 'a' <= Digit(d) <= 'f'
  {
  }

  /** One more digit at the end of a numeral. */
  lemma AppendDigit(p: string, d: nat, base: Base)
    requires d < base && AllDigits(p, base)
    ensures AllDigits(p + [Digit(d)], base)
    ensures Value(p + [Digit(d)], base) == Value(p, base) * base + d
  {
    DigitsRead(d);
    assert (p + [Digit(d)])[..|p|] == p;
  }

  ghost predicate LowerCase(s: string) {
    forall c | c in s :: '0' <= c <= '9' || 'a' <= c <= 'f'
  }

  lemma OneDigit(d: nat, base: Base)
    requires d < base
    ensures AllDigits([Digit(d)], base) && Value([Digit(d)], base) == d
  {
  }

  /** A numeral read with its last digit. */
  lemma LastDigitReads(n: nat, p: string, s: string, base: Base)
    requires AllDigits(p, base) && Value(p, base) == n / base && s == p + [Digit(n % base)]
    ensures AllDigits(s, base) && Value(s, base) == n
  {
    AppendDigit(p, n % base, base);
    QuotientAndRemainder(n, base);
  }

  lemma QuotientAndRemainder(n: nat, base: Base)
    ensures n / base * base + n % base == n
  {
  }

  lemma {:induction false} DecimalReads(n: nat, base: Base)
    requires base == 10
    ensures AllDigits(Decimal(n), base) && Value(Decimal(n), base) == n
  {
    if n >= 10 {
      DecimalReads(n / 10, base);
      LastDigitReads(n, Decimal(n / 10), Decimal(n), base);
    } else {
      OneDigit(n, base);
      assert Decimal(n) == [Digit(n)];
    }
  }

  lemma {:induction false} DecimalIsLowerCase(n: nat)
    ensures LowerCase(Decimal(n))
  {
    DigitsRead(n % 10);
    if n >= 10 {
      DecimalIsLowerCase(n / 10);
    }
  }

  function Pow(b: nat, k: nat): nat {
    if k == 0 then 1 else b * Pow(b, k - 1)
  }

  /** A decimal is as long as it needs to be. */
  lemma {:induction false} DecimalLength(n: nat, k: nat)
    requires k > 0 && n < Pow(10, k)
    ensures |Decimal(n)| <= k
  {
    if n >= 10 {
      assert Pow(10, k) == 10 * Pow(10, k - 1);
      DecimalLength(n / 10, k - 1);
    }
  }

  /** The k low digits stand for the number mod 16^k. */
  lemma {:induction false} HexReads(n: nat, k: nat)
    ensures AllDigits(Hex(n, k), 16)
    ensures Pow(16, k) > 0 && Value(Hex(n, k), 16) == n % Pow(16, k)
  {
    if k > 0 {
      HexReads(n / 16, k - 1);
      AppendDigit(Hex(n / 16, k - 1), n % 16, 16);
      LowDigitFirst(n, Pow(16, k - 1));
    }
  }

  lemma LowDigitFirst(n: nat, m: nat)
    requires m > 0
    ensures n % (16 * m) == n / 16 % m * 16 + n % 16
  {
    var q, r := n / 16 / m, n / 16 % m;
    assert n / 16 == m * q + r;
    assert (16 * m) * q == 16 * (m * q);
    DivisionIsUnique(n, 16 * m, q, r * 16 + n % 16);
  }

  lemma {:induction false} HexLowDigits(n: nat, k: nat, j: nat)
    requires j <= k
    ensures Hex(n, k)[k - j..] == Hex(n, j)
    decreases k
  {
    if j > 0 {
      HexLowDigits(n / 16, k - 1, j - 1);
    }
  }

  lemma {:induction false} HexIsLowerCase(n: nat, k: nat)
    ensures LowerCase(Hex(n, k))
  {
    if k > 0 {
      DigitsRead(n % 16);
      HexIsLowerCase(n / 16, k - 1);
    }
  }

  // ------------------------------------------------------------- the kernel's reader

  const ULLONG_MAX: nat := 0xFFFF_FFFF_FFFF_FFFF

  function WithoutSign(s: string): string {
    if s != [] && (s[0] == '-' || s[0] == '+') then s[1..] else s
  }

  function WithoutPrefix(s: string, base: Base): string {
    if base == 16 && |s| >= 2 && s[0] == '0' && (s[1] == 'x' || s[1] == 'X') then s[2..] else s
  }

  /** Digits, an optional newline, and nothing else. */
  function Unsigned(s: string, base: Base): Result<nat> {
    var k := DigitCount(s, base);
    var v := Value(s[..k], base);
    if k == 0 then Err(EINVAL)
    else if v > ULLONG_MAX then Err(ERANGE)
    else if s[k..] != "" && s[k..] != "\n" then Err(EINVAL)
    else Ok(v)
  }

  /** kstrtol, by its documented contract, for a 32-bit long: an optional sign, an optional
      0x when the base is 16, and an unsigned numeral. */
  function Kstrtol(s: string, base: Base): Result<int> {
    match Unsigned(WithoutPrefix(WithoutSign(s), base), base)
    case Err(e) => Err(e)
    case Ok(v) =>
      var n: int := if s[0] == '-' then 0 - v else v;
      if -INT_MAX - 1 <= n <= INT_MAX then Ok(n) else Err(ERANGE)
  }

  lemma UnsignedNumeral(s: string, base: Base)
    requires s != [] && AllDigits(s, base) && Value(s, base) <= ULLONG_MAX
    ensures Unsigned(s, base) == Ok(Value(s, base))
  {
    DigitCountOfDigits(s, base);
    assert s[..|s|] == s;
  }

  lemma NumeralIsBare(s: string, base: Base)
    requires s != [] && LowerCase(s)
    ensures WithoutPrefix(WithoutSign(s), base) == s && s[0] != '-'
  {
    assert s[0] in s;
    assert |s| >= 2 ==> s[1] in s;
  }

  lemma KstrtolOfNumeral(s: string, base: Base)
    requires s != [] && AllDigits(s, base) && LowerCase(s) && Value(s, base) <= INT_MAX
    ensures Kstrtol(s, base) == Ok(Value(s, base))
  {
    NumeralIsBare(s, base);
    UnsignedNumeral(s, base);
  }

  /** The position of the first c in s, or the length of s. */
  function IndexOf(s: string, c: char): (i: nat)
    ensures i <= |s|
    ensures c !in s[..i] && (i < |s| ==> s[i] == c)
  {
    if s == [] || s[0] == c then 0
    else
      var i := IndexOf(s[1..], c) + 1;
      assert s[..i] == [s[0]] + s[1..][..i - 1];
      i
  }

  lemma {:induction false} IndexOfFirst(a: string, c: char, b: string)
    requires c !in a
    ensures IndexOf(a + [c] + b, c) == |a|
  {
    if a != [] {
      IndexOfFirst(a[1..], c, b);
      assert (a + [c] + b)[1..] == a[1..] + [c] + b;
    }
  }

  /** What strsep leaves of the first part behind its first character. The separator becomes
      the end of the part; when it comes first, the rest of the message is what follows. */
  function IdPart(text: string): string
    requires text != ""
  {
    var p := IndexOf(text, 'L');
    if p == 0 then text[1..] else text[1..p]
  }

  /** Unless the id is refused, the driver goes on past two characters behind the separator,
      so a message has to have them. */
  predicate Decodable(text: string)
    requires text != ""
  {
    Kstrtol(IdPart(text), 10).Ok? ==> IndexOf(text, 'L') + 3 <= |text|
  }

  /** rpmsg_sdb_decode_rxbuf_string: the buffer id and the size as a size_t. */
  function Decode(text: string): Result<(int, Word)>
    requires text != "" && Decodable(text)
  {
    match Kstrtol(IdPart(text), 10)
    case Err(e) => Err(e)
    case Ok(id) =>
      match Kstrtol(text[IndexOf(text, 'L') + 3..], 16)
      case Err(e) => Err(e)
      case Ok(size) => Ok((id, ToWord(size)))
  }

  /** The coprocessor's report that buffer index holds size bytes: "B%dL%08x". */
  function Report(index: int, size: Word): string {
    "B" + PrintInt(index) + "L" + Hex(size, 8)
  }

  /** Where the driver's reader cuts a report. */
  lemma ReportShape(id: nat, size: Word)
    ensures var (text, p) := (Report(id, size), 1 + |Decimal(id)|);
      IndexOf(text, 'L') == p && |text| == p + 9 && text[1..p] == Decimal(id) && text[p + 3..] == Hex(size, 6)
  {
    var d := Decimal(id);
    DecimalIsLowerCase(id);
    IndexOfFirst("B" + d, 'L', Hex(size, 8));
    assert Report(id, size) == "B" + d + ['L'] + Hex(size, 8);
    HexLowDigits(size, 8, 6);
    assert Report(id, size)[1 + |d| + 3..] == Hex(size, 8)[2..];
  }

  lemma {:induction false} NoLeadingZero(n: nat)
    requires n > 0
    ensures Decimal(n)[0] != '0'
  {
    if n >= 10 {
      NoLeadingZero(n / 10);
      assert Decimal(n)[0] == Decimal(n / 10)[0];
    } else {
      DigitsRead(n);
      assert Decimal(n) == [Digit(n)];
    }
  }

  /** A text that reports an index and a size: 'B', the index in decimal without needless
      zeros, 'L', and the size in eight lower-case hexadecimal digits. */
  ghost predicate IsReport(text: string, index: nat, size: Word) {
    var p := |text| - 9;
    && p > 1 && text[0] == 'B' && text[p] == 'L' && IsDecimalOf(text[1..p], index) && IsHexOf(text[p + 1..], size)
  }

  lemma ReportText(index: nat, size: Word)
    ensures IsReport(Report(index, size), index, size)
  {
    DecimalText(Decimal(index), index);
    EightDigitText(Hex(size, 8), size);
    ReportPieces("B", Decimal(index), "L", Hex(size, 8));
  }

  lemma ReportPieces(b: string, index: string, l: string, size: string)
    requires |b| == |l| == 1 && |size| == 8
    ensures var (text, p) := (b + index + l + size, |index| + 1);
      |text| == p + 9 && text[0] == b[0] && text[p] == l[0] && text[1..p] == index && text[p + 1..] == size
  {
  }

  lemma DecimalRoundTrip(n: nat)
    requires n <= INT_MAX
    ensures Kstrtol(Decimal(n), 10) == Ok(n)
  {
    DecimalReads(n, 10);
    DecimalIsLowerCase(n);
    KstrtolOfNumeral(Decimal(n), 10);
  }

  lemma SixDigitsRead(size: Word)
    ensures Kstrtol(Hex(size, 6), 16) == Ok(size % 0x100_0000)
  {
    HexReads(size, 6);
    HexIsLowerCase(size, 6);
    PowSixteen();
    KstrtolOfNumeral(Hex(size, 6), 16);
  }

  /** The driver reads every report's id back, and of its size the low 24 bits, because it
      skips two of the eight digits. */
  lemma DecodeOfReport(id: nat, size: Word)
    requires id <= INT_MAX
    ensures Decodable(Report(id, size))
    ensures Decode(Report(id, size)) == Ok((id, size % 0x100_0000))
  {
    ReportShape(id, size);
    DecimalRoundTrip(id);
    SixDigitsRead(size);
    ToWordSmall(size % 0x100_0000);
  }

  /** Digits with something else behind them. */
  lemma {:induction false} DigitsThenOther(digits: string, rest: string, base: Base)
    requires AllDigits(digits, base)
    requires rest != "" ==> DigitValue(rest[0]) >= base
    ensures DigitCount(digits + rest, base) == |digits|
  {
    if digits == "" {
      assert digits + rest == rest;
    } else {
      DigitsThenOther(digits[1..], rest, base);
      assert (digits + rest)[1..] == digits[1..] + rest;
    }
  }

  /** A text without its newline. */
  function Chomped(s: string): string {
    if s != "" && s[|s| - 1] == '\n' then s[..|s| - 1] else s
  }

  lemma NewlineIsNoDigit()
    ensures DigitValue('\n') == 16
  {
  }

  lemma CountOfNumeral(s: string, base: Base)
    requires AllDigits(Chomped(s), base)
    ensures DigitCount(s, base) == |Chomped(s)| && s[..|Chomped(s)|] == Chomped(s)
    ensures s[|Chomped(s)|..] == "" || s[|Chomped(s)|..] == "\n"
  {
    var t := Chomped(s);
    var rest := s[|t|..];
    NewlineIsNoDigit();
    assert s == t + rest;
    DigitsThenOther(t, rest, base);
  }

  lemma CountIsChomped(s: string, base: Base)
    requires var k := DigitCount(s, base); s[k..] == "" || s[k..] == "\n"
    ensures Chomped(s) == s[..DigitCount(s, base)]
  {
    var k := DigitCount(s, base);
    NewlineIsNoDigit();
    if s[k..] == "\n" {
      assert s[k] == s[k..][0] && |s[k..]| == 1;
    } else if s != "" {
      assert k == |s| && s[..k][k - 1] == s[k - 1];
    }
  }

  /** A numeral is accepted, with an optional newline behind it, exactly when it consists of
      digits and fits 64 bits, and then it is read as its value. */
  lemma UnsignedAccepts(s: string, base: Base)
    ensures Unsigned(s, base).Ok?
       <==> Chomped(s) != "" && AllDigits(Chomped(s), base) && Value(Chomped(s), base) <= 0xFFFF_FFFF_FFFF_FFFF
    ensures Unsigned(s, base).Ok? ==> Unsigned(s, base).value == Value(Chomped(s), base)
  {
    if AllDigits(Chomped(s), base) {
      CountOfNumeral(s, base);
    }
    if Unsigned(s, base).Ok? {
      CountIsChomped(s, base);
    }
  }

  lemma UnsignedDigits(s: string, base: Base)
    requires s != "" && AllDigits(s, base)
    ensures Unsigned(s, base) == if Value(s, base) > ULLONG_MAX then Err(ERANGE) else Ok(Value(s, base))
  {
    DigitCountOfDigits(s, base);
    assert s[..|s|] == s;
  }

  lemma BareDecimal(id: int, m: nat, base: Base)
    requires m == (if id < 0 then -id else id) && base == 10
    ensures PrintInt(id) != "" && (PrintInt(id)[0] == '-' <==> id < 0)
    ensures WithoutPrefix(WithoutSign(PrintInt(id)), base) == Decimal(m)
    ensures forall c | c in PrintInt(id) :: c != 'L'
  {
    DecimalIsLowerCase(m);
    assert Decimal(m)[0] in Decimal(m);
    if id < 0 {
      assert PrintInt(id) == "-" + Decimal(m) && PrintInt(id)[1..] == Decimal(m);
    }
  }

  lemma IdReads(id: int, m: nat, base: Base)
    requires m == (if id < 0 then -id else id) && base == 10
    ensures Kstrtol(PrintInt(id), base) == if IsInt(id) then Ok(id) else Err(ERANGE)
  {
    BareDecimal(id, m, base);
    DecimalReads(m, base);
    UnsignedDigits(Decimal(m), base);
  }

  /** Where the driver's reader cuts a report with any id. */
  lemma AnyReportShape(id: int, d: string, size: Word)
    requires d == PrintInt(id) && forall c | c in d :: c != 'L'
    ensures var (text, p) := (Report(id, size), 1 + |d|);
      IndexOf(text, 'L') == p && |text| == p + 9 && text[1..p] == d && text[p + 3..] == Hex(size, 6)
  {
    IndexOfFirst("B" + d, 'L', Hex(size, 8));
    assert Report(id, size) == "B" + d + ['L'] + Hex(size, 8);
    HexLowDigits(size, 8, 6);
    assert Report(id, size)[1 + |d| + 3..] == Hex(size, 8)[2..];
  }

  lemma DecodeOfParts(text: string, id: Result<int>, size: Result<int>)
    requires var p := IndexOf(text, 'L');
      p > 0 && p + 3 <= |text| && Kstrtol(text[1..p], 10) == id && Kstrtol(text[p + 3..], 16) == size
    ensures Decodable(text)
    ensures Decode(text) == if id.Err? then Err(id.error) else if size.Err? then Err(size.error) else Ok((id.value, ToWord(size.value)))
  {
  }

  /** The id of a report comes back for every int, and is out of range otherwise. */
  lemma DecodeOfAnyId(id: int, size: Word)
    ensures Decodable(Report(id, size))
    ensures Decode(Report(id, size)) == if IsInt(id) then Ok((id, size % 0x100_0000)) else Err(ERANGE)
  {
    var m := if id < 0 then -id else id;
    BareDecimal(id, m, 10);
    AnyReportShape(id, PrintInt(id), size);
    IdReads(id, m, 10);
    SixDigitsRead(size);
    ToWordSmall(size % 0x100_0000);
    var idPart: Result<int> := if IsInt(id) then Ok(id) else Err(ERANGE);
    DecodeOfParts(Report(id, size), idPart, Ok(size % 0x100_0000));
  }

  /** What a text with this unsigned part is read as. */
  lemma KstrtolOf(text: string, s: string, base: Base, n: nat)
    requires text != "" && WithoutPrefix(WithoutSign(text), base) == s && Unsigned(s, base) == Ok(n) && n <= INT_MAX
    ensures Kstrtol(text, base) == if text[0] == '-' then Ok(0 - n) else Ok(n as int)
  {
  }

  lemma SignedForm(s: string, base: Base, sign: char)
    requires s != "" && LowerCase(s) && (sign == '+' || sign == '-')
    ensures WithoutPrefix(WithoutSign([sign] + s), base) == s
  {
    NumeralIsBare(s, base);
    assert ([sign] + s)[1..] == s && s[0] in s;
    assert |s| >= 2 ==> s[1] in s;
  }

  lemma PrefixedForm(s: string, x: char)
    requires x == 'x' || x == 'X'
    ensures WithoutPrefix(WithoutSign(['0', x] + s), 16) == s
  {
    assert (['0', x] + s)[2..] == s;
  }

  lemma NewlineForm(s: string, base: Base)
    requires s != "" && AllDigits(s, base) && LowerCase(s) && Value(s, base) <= ULLONG_MAX
    ensures WithoutPrefix(WithoutSign(s + "\n"), base) == s + "\n" && s[0] != '-'
    ensures Unsigned(s + "\n", base) == Ok(Value(s, base))
  {
    var t := s + "\n";
    assert Chomped(t) == s && s[0] in s;
    assert |s| >= 2 ==> s[1] in s;
    UnsignedAccepts(t, base);
  }

  /** The forms of a numeral: a sign, a newline, and 0x or 0X in base 16. */
  lemma KstrtolForms(s: string, base: Base, n: nat)
    requires s != "" && AllDigits(s, base) && LowerCase(s) && n == Value(s, base) <= INT_MAX
    ensures Kstrtol(['+'] + s, base) == Ok(n as int) && Kstrtol(['-'] + s, base) == Ok(0 - n)
    ensures Kstrtol(s + "\n", base) == Ok(n as int)
    ensures base == 16 ==> Kstrtol(['0', 'x'] + s, base) == Ok(n as int) && Kstrtol(['0', 'X'] + s, base) == Ok(n as int)
  {
    UnsignedDigits(s, base);
    SignedForm(s, base, '+');
    KstrtolOf(['+'] + s, s, base, n);
    SignedForm(s, base, '-');
    KstrtolOf(['-'] + s, s, base, n);
    NewlineForm(s, base);
    KstrtolOf(s + "\n", s + "\n", base, n);
    if base == 16 {
      PrefixedForm(s, 'x');
      KstrtolOf(['0', 'x'] + s, s, base, n);
      PrefixedForm(s, 'X');
      KstrtolOf(['0', 'X'] + s, s, base, n);
    }
  }

  /** In a message that starts with the separator the reader takes everything behind it for
      the id, and the end of the same text for the size. */
  lemma LeadingSeparator(text: string, id: int)
    requires |text| >= 3 && text[0] == 'L' && Kstrtol(text[1..], 10) == Ok(id)
    ensures Decodable(text)
    ensures Decode(text)
         == match Kstrtol(text[3..], 16)
            case Ok(size) => Ok((id, ToWord(size)))
            case Err(e) => Err(e)
  {
  }

  lemma PowSixteen()
    ensures Pow(16, 6) == 0x100_0000 && Pow(16, 8) == WORD_SIZE
  {
  }

  lemma SizeIsExact(got: Result<(int, Word)>, id: nat, size: Word)
    requires got == Ok((id, size % 0x100_0000))
    ensures got == Ok((id, size)) <==> size < 0x100_0000
  {
  }

  /** A report comes through unchanged exactly when its size is below 2^24. */
  lemma ReportIsExact(id: nat, size: Word)
    requires id <= INT_MAX
    ensures Decodable(Report(id, size))
    ensures Decode(Report(id, size)) == Ok((id, size)) <==> size < 0x100_0000
  {
    DecodeOfReport(id, size);
    SizeIsExact(Decode(Report(id, size)), id, size);
  }

  // ------------------------------------------------- where a buffer is: the driver's side

  predicate IsInt(n: int) {
    -INT_MAX - 1 <= n <= INT_MAX
  }

  /** rpmsg_sdb_format_txbuf_string: "B%dA%08xL%08x" of a buffer's index, physical address
      and size. */
  function BufferInfo(index: int, paddr: Word, size: Word): string {
    "B" + PrintInt(index) + "A" + Hex(paddr, 8) + "L" + Hex(size, 8)
  }

  lemma PrintIntLength(n: int)
    requires IsInt(n)
    ensures 0 < |PrintInt(n)| <= 11
  {
    assert Pow(10, 2) == 100;
    assert Pow(10, 4) == 100 * Pow(10, 2);
    assert Pow(10, 6) == 100 * Pow(10, 4);
    assert Pow(10, 8) == 100 * Pow(10, 6);
    assert Pow(10, 10) == 100 * Pow(10, 8);
    DecimalLength(if n < 0 then -n else n, 10);
  }

  /** The text fits the 32-byte buffer with its terminator, so snprintf cuts nothing off. */
  lemma BufferInfoFits(index: int, paddr: Word, size: Word)
    requires IsInt(index)
    ensures |BufferInfo(index, paddr, size)| <= 30
  {
    PrintIntLength(index);
  }

  lemma PrintIntIsInjective(m: int, n: int)
    requires PrintInt(m) == PrintInt(n)
    ensures m == n
  {
    MagnitudeReads(m);
    MagnitudeReads(n);
  }

  /** The sign and the magnitude of a printed number can be read off it. */
  lemma MagnitudeReads(n: int)
    ensures n < 0 <==> PrintInt(n)[0] == '-'
    ensures Value(if n < 0 then PrintInt(n)[1..] else PrintInt(n), 10) == if n < 0 then -n else n
  {
    var m: nat := if n < 0 then -n else n;
    DecimalReads(m, 10);
    DecimalIsLowerCase(m);
    assert Decimal(m)[0] in Decimal(m);
    if n < 0 {
      assert PrintInt(n)[1..] == Decimal(m);
    }
  }

  /** Five pieces in a row, cut apart again from the end. */
  lemma Pieces(b: string, index: string, a: string, paddr: string, l: string, size: string)
    requires |b| == |a| == |l| == 1 && |paddr| == |size| == 8 && index != ""
    ensures var text := b + index + a + paddr + l + size;
      var n := |text|;
      && n > 19 && text[1..n - 18] == index && text[n - 17..n - 9] == paddr && text[n - 8..] == size
      && text[0] == b[0] && text[n - 18] == a[0] && text[n - 9] == l[0] && text[1] == index[0]
  {
  }

  /** The numerals of a text, counted from its end. */
  lemma InfoParts(index: int, paddr: Word, size: Word)
    ensures var (text, n) := (BufferInfo(index, paddr, size), |BufferInfo(index, paddr, size)|);
      n > 19 && text[1..n - 18] == PrintInt(index) && text[n - 17..n - 9] == Hex(paddr, 8) && text[n - 8..] == Hex(size, 8)
  {
    Pieces("B", PrintInt(index), "A", Hex(paddr, 8), "L", Hex(size, 8));
  }

  /** A text that announces a buffer: 'B', the index in decimal, 'A', the address and 'L', the
      size, both in eight lower-case hexadecimal digits. */
  ghost predicate IsInfo(text: string, index: nat, paddr: Word, size: Word) {
    var n := |text|;
    && n > 19 && text[0] == 'B' && text[n - 18] == 'A' && text[n - 9] == 'L'
    && IsDecimalOf(text[1..n - 18], index) && IsHexOf(text[n - 17..n - 9], paddr) && IsHexOf(text[n - 8..], size)
  }

  /** The number in decimal, without needless zeros. */
  ghost predicate IsDecimalOf(s: string, n: nat) {
    s != "" && AllDigits(s, 10) && Value(s, 10) == n && (n > 0 ==> s[0] != '0')
  }

  /** The number in eight lower-case hexadecimal digits. */
  ghost predicate IsHexOf(s: string, n: Word) {
    |s| == 8 && LowerCase(s) && Value(s, 16) == n
  }

  lemma InfoText(index: nat, paddr: Word, size: Word)
    ensures IsInfo(BufferInfo(index, paddr, size), index, paddr, size)
  {
    DecimalText(PrintInt(index), index);
    EightDigitText(Hex(paddr, 8), paddr);
    EightDigitText(Hex(size, 8), size);
    Pieces("B", PrintInt(index), "A", Hex(paddr, 8), "L", Hex(size, 8));
  }

  lemma DecimalText(s: string, n: nat)
    requires s == Decimal(n)
    ensures IsDecimalOf(s, n)
  {
    DecimalReads(n, 10);
    if n > 0 {
      NoLeadingZero(n);
    }
  }

  lemma EightDigitText(s: string, n: Word)
    requires s == Hex(n, 8)
    ensures IsHexOf(s, n)
  {
    EightDigitsRead(n);
    HexIsLowerCase(n, 8);
  }

  /** Different buffers are announced by different texts. */
  lemma BufferInfoIsInjective(index: int, paddr: Word, size: Word, index': int, paddr': Word, size': Word)
    requires BufferInfo(index, paddr, size) == BufferInfo(index', paddr', size')
    ensures index == index' && paddr == paddr' && size == size'
  {
    InfoParts(index, paddr, size);
    InfoParts(index', paddr', size');
    PrintIntIsInjective(index, index');
    HexIsInjective(paddr, paddr');
    HexIsInjective(size, size');
  }

  lemma HexIsInjective(m: Word, n: Word)
    requires Hex(m, 8) == Hex(n, 8)
    ensures m == n
  {
    EightDigitsRead(m);
    EightDigitsRead(n);
  }

  lemma EightDigitsRead(n: Word)
    ensures AllDigits(Hex(n, 8), 16) && Value(Hex(n, 8), 16) == n
  {
    HexReads(n, 8);
    PowSixteen();
    ToWordSmall(n);
  }

  /** The text of several chunks in a row. */
  function Concat(chunks: seq<string>): string {
    if chunks == [] then "" else Concat(chunks[..|chunks| - 1]) + chunks[|chunks| - 1]
  }

  /** The chunks sent are the first start characters of text: full chunks, except that the
      one that ends the text may be shorter. */
  ghost predicate SentUpTo(sent: seq<string>, text: string, start: nat, msgSize: nat, outcome: nat -> int) {
    && start <= |text|
    && Concat(sent) == text[..start]
    && (forall k: nat | k < |sent| :: 0 < |sent[k]| <= msgSize && outcome(k) == 0)
    && (forall k: nat | k + (if start < |text| then 0 else 1) < |sent| :: |sent[k]| == msgSize)
    && (|text| <= msgSize ==> if start < |text| then sent == [] else sent == [text])
  }

  lemma OneMoreChunk(sent: seq<string>, text: string, start: nat, msgSize: nat, outcome: nat -> int, chunk: string)
    requires SentUpTo(sent, text, start, msgSize, outcome) && start < |text| && msgSize > 0 && outcome(|sent|) == 0
    requires chunk == text[start..if |text| - start > msgSize then start + msgSize else |text|]
    ensures SentUpTo(sent + [chunk], text, start + |chunk|, msgSize, outcome)
  {
    assert (sent + [chunk])[..|sent|] == sent;
    assert text[..start] + chunk == text[..start + |chunk|];
    if |text| <= msgSize {
      assert Concat(sent) == "" && |text[..start]| == 0;
      assert chunk == text && sent + [chunk] == [text];
    }
  }

  /** What a sender that stopped behind start characters has done: it stopped at the end of
      the text with result 0, or at a send that failed. */
  lemma SendStops(sent: seq<string>, text: string, start: nat, msgSize: nat, outcome: nat -> int, ret: int)
    requires SentUpTo(sent, text, start, msgSize, outcome)
    requires if ret == 0 then start == |text| else start < |text| && outcome(|sent|) == ret
    ensures forall k: nat | k + 1 < |sent| :: |sent[k]| == msgSize
    ensures Concat(sent) <= text
    ensures if ret == 0 then Concat(sent) == text else Concat(sent) < text && outcome(|sent|) == ret
  {
    assert text[..|text|] == text;
  }

  /** The characters of the next message. */
  method NextChunk(text: string, tbuf: nat, count: nat, msgSize: nat) returns (chunk: string)
    requires count > 0 && tbuf + count == |text|
    ensures chunk == text[tbuf..if |text| - tbuf > msgSize then tbuf + msgSize else |text|]
  {
    chunk := text[tbuf..tbuf + if count > msgSize then msgSize else count];
  }

  /** The loop of rpmsg_sdb_send_buf_info. */
  method SendChunks(text: string, msgSize: nat, outcome: nat -> int) returns (ret: int, sent: seq<string>, ghost start: nat)
    requires msgSize > 0 && text != ""
    ensures SentUpTo(sent, text, start, msgSize, outcome)
    ensures if ret == 0 then start == |text| else start < |text| && outcome(|sent|) == ret
  {
    sent := [];
    var count := |text|;
    var tbuf := 0;
    while count > 0
      invariant 0 <= count <= |text| && (count > 0 ==> tbuf == |text| - count)
      invariant SentUpTo(sent, text, |text| - count, msgSize, outcome)
      decreases count
    {
      var chunk := NextChunk(text, tbuf, count, msgSize);
      ret := outcome(|sent|);
      if ret != 0 {
        return ret, sent, tbuf;
      }
      OneMoreChunk(sent, text, tbuf, msgSize, outcome, chunk);
      sent := sent + [chunk];
      if count > msgSize {
        count := count - msgSize;
        tbuf := tbuf + msgSize;
      } else {
        count := 0;
      }
    }
    return count, sent, |text|;
  }

  /** rpmsg_sdb_send_buf_info: sends text in chunks of at most msgSize characters. The k-th
      call of rpmsg_send returns outcome(k); sent holds the chunks of the successful calls. */
  method SendBufInfo(text: string, msgSize: int, outcome: nat -> int) returns (ret: int, sent: seq<string>)
    requires msgSize != 0 && text != ""
    ensures msgSize < 0 ==> ret == msgSize && sent == []
    ensures msgSize > 0 ==>
      && (forall k: nat | k < |sent| :: 0 < |sent[k]| <= msgSize && outcome(k) == 0)
      && (forall k: nat | k + 1 < |sent| :: |sent[k]| == msgSize)
      && Concat(sent) <= text
      && (if ret == 0 then Concat(sent) == text else Concat(sent) < text && outcome(|sent|) == ret)
    ensures msgSize > 0 && ret == 0 ==> SentUpTo(sent, text, |text|, msgSize, outcome)
  {
    if msgSize < 0 {
      return msgSize, [];
    }
    ghost var start;
    ret, sent, start := SendChunks(text, msgSize, outcome);
    SendStops(sent, text, start, msgSize, outcome, ret);
  }

  /** The stream of chunks identifies the buffer: two announcements sent in full, whatever
      the message sizes, that concatenate to the same text announce the same buffer. */
  lemma StreamIdentifiesBuffer(
      index: int, paddr: Word, size: Word, sent: seq<string>, msgSize: nat, outcome: nat -> int,
      index': int, paddr': Word, size': Word, sent': seq<string>, msgSize': nat, outcome': nat -> int)
    requires var text := BufferInfo(index, paddr, size); SentUpTo(sent, text, |text|, msgSize, outcome)
    requires var text := BufferInfo(index', paddr', size'); SentUpTo(sent', text, |text|, msgSize', outcome')
    requires Concat(sent) == Concat(sent')
    ensures index == index' && paddr == paddr' && size == size'
  {
    SendStops(sent, BufferInfo(index, paddr, size), |BufferInfo(index, paddr, size)|, msgSize, outcome, 0);
    SendStops(sent', BufferInfo(index', paddr', size'), |BufferInfo(index', paddr', size')|, msgSize', outcome', 0);
    BufferInfoIsInjective(index, paddr, size, index', paddr', size');
  }
}
