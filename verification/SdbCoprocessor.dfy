/** The coprocessor's end of the shared-buffer protocol: it collects the buffers that the
    driver announces and reports each one it has filled. */
module SdbCoprocessor {
  import opened Common
  import opened Words
  import opened SdbText

  const NUL: char := '\0'
  const LLONG_MAX: nat := 0x7FFF_FFFF_FFFF_FFFF

  /** A character of a received text; behind the text stands its terminator. */
  function CharAt(text: string, i: nat): char {
    if i < |text| then text[i] else NUL
  }

  predicate IsLowerHex(c: char) {
    '0' <= c <= '9' || 'a' <= c <= 'f'
  }

  predicate EightDigitsAt(text: string, start: nat) {
    forall i: nat | start <= i < start + 8 :: IsLowerHex(CharAt(text, i))
  }

  /** strtoll in base 16 of a text that starts with two hexadecimal digits, cast to
      uint32_t. */
  function ReadHex(s: string): Word {
    var v := Value(s[..DigitCount(s, 16)], 16);
    ToWord(if v > LLONG_MAX then LLONG_MAX else v)
  }

  /** treatSDBEvent up to the assignment: the address and size of an announced buffer, if
      its index is the awaited one and the text has the announced form. The first character
      is not checked: a wrong one is only logged. */
  function ParseAnnouncement(text: string, awaited: nat): Option<(Word, Word)>
    requires text != ""
  {
    if !('0' <= CharAt(text, 1) <= '3') then None
    else if awaited != CharAt(text, 1) as int - '0' as int then None
    else if CharAt(text, 2) != 'A' then None
    else if CharAt(text, 11) != 'L' then None
    else if !EightDigitsAt(text, 3) || !EightDigitsAt(text, 12) then None
    else Some((ReadHex(Tail(text, 3)), ReadHex(Tail(text, 12))))
  }

  function Tail(text: string, i: nat): string {
    if i <= |text| then text[i..] else ""
  }

  lemma ReadHexOfEight(n: Word, rest: string)
    requires rest != "" ==> DigitValue(rest[0]) == 16
    ensures ReadHex(Hex(n, 8) + rest) == n
  {
    EightDigitsRead(n);
    DigitsThenOther(Hex(n, 8), rest, 16);
    assert (Hex(n, 8) + rest)[..8] == Hex(n, 8);
    ToWordSmall(n);
  }

  /** More digits than eight are all read: the number is cut at the greatest long long, and
      then to 32 bits. */
  lemma ReadHexClamps(s: string)
    ensures var v := Value(s[..DigitCount(s, 16)], 16);
      ReadHex(s) == if v <= 0x7FFF_FFFF_FFFF_FFFF then v % 0x1_0000_0000 else 0xFFFF_FFFF
  {
  }

  lemma DecimalStart(n: nat)
    ensures n < 10 ==> Decimal(n) == [Digit(n)]
    ensures n >= 10 ==> |Decimal(n)| >= 2
  {
    if n >= 10 {
      assert Decimal(n) == Decimal(n / 10) + [Digit(n % 10)];
    } else {
      assert Decimal(n) == [] + [Digit(n % 10)];
    }
  }

  /** The coprocessor takes an announcement exactly when it names the awaited buffer and
      one of the first four, and then it has the driver's address and size. */
  lemma AnnouncementIsRead(index: int, paddr: Word, size: Word, awaited: nat)
    ensures ParseAnnouncement(BufferInfo(index, paddr, size), awaited)
         == if 0 <= index <= 3 && awaited == index then Some((paddr, size)) else None
  {
    var text := BufferInfo(index, paddr, size);
    var d := PrintInt(index);
    assert text[1] == d[0];
    if index < 0 {
      assert text[1] == '-';
    } else {
      DecimalStart(index);
      DecimalIsLowerCase(index);
      if index >= 10 {
        assert text[2] == d[1] && d[1] in d;
      } else {
        DigitsRead(index);
        ShortAnnouncement(index, paddr, size, text);
      }
    }
  }

  /** The layout of an announcement with a one-digit index. */
  lemma Layout(d: char, a: string, l: string)
    requires |a| == 8 && |l| == 8
    ensures var text := "B" + [d] + "A" + a + "L" + l;
      && |text| == 20 && text[1] == d && text[2] == 'A' && text[11] == 'L'
      && text[3..11] == a && text[12..20] == l
      && text[3..] == a + ("L" + l) && text[12..] == l + ""
  {
  }

  lemma ShortAnnouncement(index: nat, paddr: Word, size: Word, text: string)
    requires index < 10 && text == BufferInfo(index, paddr, size)
    ensures |text| == 20 && text[1] == Digit(index) && text[2] == 'A' && text[11] == 'L'
    ensures EightDigitsAt(text, 3) && EightDigitsAt(text, 12)
    ensures ReadHex(text[3..]) == paddr && ReadHex(text[12..]) == size
  {
    var a, l := Hex(paddr, 8), Hex(size, 8);
    DecimalStart(index);
    Layout(Digit(index), a, l);
    ReadHexOfEight(paddr, "L" + l);
    ReadHexOfEight(size, "");
    HexIsLowerCase(paddr, 8);
    HexIsLowerCase(size, 8);
    EightDigits(text, 3, a);
    EightDigits(text, 12, l);
  }

  lemma EightDigits(text: string, start: nat, digits: string)
    requires |digits| == 8 && LowerCase(digits)
    requires start + 8 <= |text| && text[start..start + 8] == digits
    ensures EightDigitsAt(text, start)
  {
    forall i: nat | start <= i < start + 8 ensures IsLowerHex(CharAt(text, i)) {
      assert text[i] == digits[i - start];
      assert digits[i - start] in digits;
    }
  }

  lemma HexDigit(c: char)
    requires IsLowerHex(c)
    ensures DigitValue(c) < 16 && Digit(DigitValue(c)) == c
  {
  }

  /** A text is the lower-case numeral of a number. */
  ghost predicate Spells(s: string, v: nat) {
    Hex(v, |s|) == s && v < Pow(16, |s|)
  }

  lemma LastHexDigit(p: string, c: char, v: nat, s: string)
    requires IsLowerHex(c) && Spells(p, v) && s == p + [c]
    ensures Spells(s, v * 16 + DigitValue(c))
  {
    HexDigit(c);
    HexStep(v, DigitValue(c), |s|);
  }

  lemma HexStep(v: nat, d: nat, k: nat)
    requires k > 0 && d < 16 && v < Pow(16, k - 1)
    ensures Hex(v * 16 + d, k) == Hex(v, k - 1) + [Digit(d)] && v * 16 + d < Pow(16, k)
  {
    SplitLastDigit(v, d);
    assert Pow(16, k) == 16 * Pow(16, k - 1);
  }

  lemma SplitLastDigit(v: nat, d: nat)
    requires d < 16
    ensures (v * 16 + d) / 16 == v && (v * 16 + d) % 16 == d
  {
  }

  /** Every lower-case text is the numeral of a number. */
  lemma {:induction false} HexOfValue(s: string) returns (v: nat)
    requires forall i: nat | i < |s| :: IsLowerHex(s[i])
    ensures Spells(s, v)
  {
    v := 0;
    if s != "" {
      var n := |s| - 1;
      v := HexOfValue(s[..n]);
      LastHexDigit(s[..n], s[n], v, s);
      v := v * 16 + DigitValue(s[n]);
    }
  }

  /** A text begins, behind its first character, like an announcement. */
  ghost predicate Announces(text: string, index: nat, paddr: Word, size: Word) {
    |text| >= 20 && |BufferInfo(index, paddr, size)| == 20 && text[1..20] == BufferInfo(index, paddr, size)[1..]
  }

  /** The nineteen characters behind the first one. */
  function Body(d: char, a: string, l: string): string {
    [d] + "A" + a + "L" + l
  }

  lemma InfoBody(index: nat, paddr: Word, size: Word)
    requires index < 10
    ensures |BufferInfo(index, paddr, size)| == 20
    ensures BufferInfo(index, paddr, size)[1..] == Body(Digit(index), Hex(paddr, 8), Hex(size, 8))
  {
    DecimalStart(index);
    Layout(Digit(index), Hex(paddr, 8), Hex(size, 8));
  }

  /** A text cut at the places that the coprocessor looks at. */
  lemma BodyParts(text: string, d: char, a: string, l: string)
    requires |text| >= 20 && |a| == 8 && |l| == 8
    ensures text[1..20] == Body(d, a, l)
       <==> text[1] == d && text[2] == 'A' && text[11] == 'L' && text[3..11] == a && text[12..20] == l
  {
    var b := text[1..20];
    assert b[0] == text[1] && b[1] == text[2] && b[10] == text[11] && b[2..10] == text[3..11] && b[11..] == text[12..20];
    assert b == [b[0]] + [b[1]] + b[2..10] + [b[10]] + b[11..];
    var c := Body(d, a, l);
    assert |c| == 19 && c[0] == d && c[1] == 'A' && c[10] == 'L' && c[2..10] == a && c[11..] == l;
  }

  lemma HexAt(text: string, start: nat, n: Word)
    requires start + 8 <= |text| && text[start..start + 8] == Hex(n, 8)
    ensures EightDigitsAt(text, start)
    ensures |text| == start + 8 || DigitValue(text[start + 8]) == 16 ==> ReadHex(text[start..]) == n
  {
    HexIsLowerCase(n, 8);
    EightDigits(text, start, Hex(n, 8));
    assert text[start..] == Hex(n, 8) + text[start + 8..];
    if |text| == start + 8 || DigitValue(text[start + 8]) == 16 {
      ReadHexOfEight(n, text[start + 8..]);
    }
  }

  /** What the coprocessor reads from a text that is announced to it. */
  lemma AnnouncedIsRead(text: string, index: nat, paddr: Word, size: Word)
    requires index <= 3 && Announces(text, index, paddr, size)
    ensures var p := ParseAnnouncement(text, index);
      && p.Some? && p.value.0 == paddr
      && (|text| == 20 || DigitValue(text[20]) == 16 ==> p.value.1 == size)
  {
    InfoBody(index, paddr, size);
    BodyParts(text, Digit(index), Hex(paddr, 8), Hex(size, 8));
    HexAt(text, 3, paddr);
    HexAt(text, 12, size);
    DigitsRead(index);
    assert Digit(index) as int == '0' as int + index;
  }

  lemma LowerHexAt(text: string, start: nat, s: string)
    requires EightDigitsAt(text, start) && start + 8 <= |text| && s == text[start..start + 8]
    ensures |s| == 8 && forall i: nat | i < |s| :: IsLowerHex(s[i])
  {
    forall i: nat | i < |s| ensures IsLowerHex(s[i]) {
      assert IsLowerHex(CharAt(text, start + i));
    }
  }

  lemma ValueAt(text: string, start: nat) returns (n: Word)
    requires EightDigitsAt(text, start)
    ensures start + 8 <= |text| && text[start..start + 8] == Hex(n, 8)
  {
    assert IsLowerHex(CharAt(text, start + 7));
    var s := text[start..start + 8];
    LowerHexAt(text, start, s);
    var v := HexOfValue(s);
    PowSixteen();
    n := v;
  }

  lemma IndexDigit(c: char, index: nat)
    requires '0' <= c <= '3' && index == c as int - '0' as int
    ensures index <= 3 && c == Digit(index)
  {
  }

  lemma AcceptedIsAnnounced(text: string, awaited: nat) returns (paddr: Word, size: Word)
    requires text != "" && ParseAnnouncement(text, awaited).Some?
    ensures awaited <= 3 && Announces(text, awaited, paddr, size)
  {
    size := ValueAt(text, 12);
    paddr := ValueAt(text, 3);
    IndexDigit(text[1], awaited);
    BodyParts(text, Digit(awaited), Hex(paddr, 8), Hex(size, 8));
    InfoBody(awaited, paddr, size);
  }

  /** The coprocessor accepts exactly the texts that, whatever their first character, begin
      like the driver's announcement of the awaited buffer, one of 0 to 3. */
  lemma AcceptsAnnouncementsOnly(text: string, awaited: nat)
    requires text != ""
    ensures ParseAnnouncement(text, awaited).Some?
       <==> awaited <= 3 && exists paddr: Word, size: Word :: Announces(text, awaited, paddr, size)
  {
    if ParseAnnouncement(text, awaited).Some? {
      var paddr, size := AcceptedIsAnnounced(text, awaited);
    }
    if paddr: Word, size: Word :| awaited <= 3 && Announces(text, awaited, paddr, size) {
      AnnouncedIsRead(text, awaited, paddr, size);
    }
  }

  /** What the receive buffer of 100 bytes keeps of a message, before its terminator. */
  function Kept(text: string): (kept: string)
    ensures text != "" ==> kept != ""
    ensures kept <= text && |kept| == if |text| < 100 then |text| else 99
  {
    if |text| < 100 then text else text[..99]
  }

  /** HDR_StatusTypeDef */
  datatype Status = Init | Idle | Start | Wait | Done | Abort

  class Coprocessor {
    const table: array<(Word, Word)>
    const bufferSize: Word
    var count: nat
    var index: nat
    var status: Status

    ghost predicate Valid()
      reads this
    {
      count <= table.Length && (index == 0 || index < count)
    }

    /** The sizes are SAMP_DDR_BUFFER_CNT and SAMP_DDR_BUFFER_SIZE. */
    constructor (buffers: nat, bufferSize: Word)
      ensures Valid() && fresh(table) && table.Length == buffers && this.bufferSize == bufferSize
      ensures count == 0 && index == 0 && status == Init
    {
      table := new (Word, Word)[buffers](_ => (0, 0));
      this.bufferSize := bufferSize;
      count, index, status := 0, 0, Init;
    }

    /** treatSDBEvent: stores an accepted announcement; the last one makes the machine
        ready. */
    method TreatAnnouncement(text: string)
      requires Valid() && text != ""
      requires ParseAnnouncement(text, count).Some? ==> count < table.Length
      modifies this`count, this`status, table
      ensures Valid()
      ensures var p := ParseAnnouncement(text, old(count));
        && count == (if p.Some? then old(count) + 1 else old(count))
        && table[..] == (if p.Some? then old(table[..])[old(count) := p.value] else old(table[..]))
        && status == (if p.Some? && count == table.Length then Idle else old(status))
    {
      var p := ParseAnnouncement(text, count);
      if p.Some? {
        table[count] := p.value;
        count := count + 1;
        if count == table.Length {
          status := Idle;
        }
      }
    }

    /** SDB0_RxCpltCallback for every message of a poll, and then treatSDBEvent if one came:
        each message overwrites the one before. */
    method Poll(messages: seq<string>)
      requires Valid()
      requires messages != [] ==>
        var last := messages[|messages| - 1];
        last != "" && (ParseAnnouncement(Kept(last), count).Some? ==> count < table.Length)
      modifies this`count, this`status, table
      ensures Valid()
      ensures messages == [] ==> count == old(count) && status == old(status) && table[..] == old(table[..])
      ensures messages != [] ==>
        var p := ParseAnnouncement(Kept(messages[|messages| - 1]), old(count));
        && count == (if p.Some? then old(count) + 1 else old(count))
        && table[..] == (if p.Some? then old(table[..])[old(count) := p.value] else old(table[..]))
        && status == (if p.Some? && count == table.Length then Idle else old(status))
    {
      var flag, buffer := false, "";
      var i := 0;
      while i < |messages|
        invariant i <= |messages| && flag == (i > 0)
        invariant i > 0 ==> buffer == Kept(messages[i - 1])
      {
        buffer, flag := Kept(messages[i]), true;
        i := i + 1;
      }
      if flag {
        TreatAnnouncement(buffer);
      }
    }

    /** HDRSTATUS_DONE in LAStateMachine: reports the filled buffer and turns to the next. */
    method FinishTransfer() returns (report: string)
      requires Valid() && status == Done && count > 0
      modifies this`index, this`status
      ensures Valid() && status == Idle
      ensures report == Report(old(index), bufferSize) && IsReport(report, old(index), bufferSize)
      ensures index == if old(index) + 1 == count then 0 else old(index) + 1
    {
      status := Idle;
      report := Report(index, bufferSize);
      ReportText(index, bufferSize);
      index := index + 1;
      if index == count {
        index := 0;
      }
    }
  }
}
