/** Printing of integers (`printi` and `prints`): digits are put into a buffer of twelve
    characters from the end, and the text is padded to a width on the left or on the right.
    An independent reader says what number a text stands for. */
module NumeralPrint {
  import opened Arith
  import opened Types

  const WORD := 0x1_0000_0000
  const PRINT_BUF_LEN := 12

  predicate Base(b: nat) { b == 10 || b == 16 }

  // -------------------------------------------------------------------- reading

  function DigitValue(c: char): (d: Option<int>)
    ensures d.Some? ==> 0 <= d.value < 16
  {
    if '0' <= c <= '9' then Some(c as int - '0' as int)
    else if 'a' <= c <= 'f' then Some(c as int - 'a' as int + 10)
    else if 'A' <= c <= 'F' then Some(c as int - 'A' as int + 10)
    else None
  }

  /** The number a row of digits stands for; none unless it is a non-empty row of digits. */
  function ReadDigits(s: string, b: nat): (v: Option<int>)
    ensures v.Some? ==> 0 <= v.value
  {
    if |s| == 0 then None
    else
      var d := DigitValue(s[|s| - 1]);
      if d == None || d.value >= b then None
      else if |s| == 1 then d
      else match ReadDigits(s[..|s| - 1], b)
        case None => None
        case Some(v) => Some(WithDigit(v, b, d.value))
  }

  function WithDigit(v: nat, b: nat, d: nat): nat {
    MulNonNegative(v, b);
    v * b + d
  }

  function SkipLeading(s: string): string {
    if |s| > 0 && s[0] == ' ' then SkipLeading(s[1..]) else s
  }

  function SkipTrailing(s: string): string {
    if |s| > 0 && s[|s| - 1] == ' ' then SkipTrailing(s[..|s| - 1]) else s
  }

  /** The number a text stands for: blanks around it, a minus sign, digits. */
  function Read(s: string, b: nat): Option<int> {
    var t := SkipTrailing(SkipLeading(s));
    if |t| > 0 && t[0] == '-' then
      match ReadDigits(t[1..], b) case None => None case Some(v) => Some(-v)
    else
      match ReadDigits(t, b) case None => None case Some(v) => Some(v)
  }

  // ------------------------------------------------------------------- printing

  function DigitChar(d: nat, upper: bool): char
    requires d < 16
  {
    if d < 10 then (d + '0' as int) as char
    else (d - 10 + (if upper then 'A' else 'a') as int) as char
  }

  /** A number without its last digit, and that digit. */
  function Rest(u: nat, b: nat): (v: nat)
    requires Base(b)
    ensures u > 0 ==> v < u
  {
    u / b
  }

  function Last(u: nat, b: nat): (d: nat)
    requires Base(b)
    ensures d < 16
  {
    u % b
  }

  function Digits(u: nat, b: nat, upper: bool): string
    requires Base(b)
  {
    if u == 0 then [] else Digits(Rest(u, b), b, upper) + [DigitChar(Last(u, b), upper)]
  }

  function Fill(c: char, k: nat): (s: string)
    ensures |s| == k
  {
    seq(k, _ => c)
  }

  datatype Pad = Pad(right: bool, zero: bool)

  function Missing(width: int, len: nat): nat { if width > len then width - len else 0 }

  /** What `prints` emits for a string. */
  function Padded(s: string, width: int, pad: Pad): string {
    var fill := Fill(if pad.zero then '0' else ' ', Missing(width, |s|));
    if pad.right then s + fill else fill + s
  }

  predicate Negative(i: s32, b: nat, signed: bool) { signed && b == 10 && i < 0 }

  /** The magnitude that is printed: the word, or the negated word. */
  function Magnitude(i: s32, b: nat, signed: bool): nat {
    if Negative(i, b, signed) then -(i as int) % WORD else i % WORD
  }

  /** The number that is meant. */
  function Meant(i: s32, b: nat, signed: bool): int {
    if Negative(i, b, signed) then i else i % WORD
  }

  function Body(i: s32, b: nat, signed: bool, upper: bool): string
    requires Base(b)
  {
    if i == 0 then "0" else Digits(Magnitude(i, b, signed), b, upper)
  }

  /** What `printi` emits. */
  function Printed(i: s32, b: nat, signed: bool, width: int, pad: Pad, upper: bool): string
    requires Base(b)
  {
    var body := Body(i, b, signed, upper);
    if !Negative(i, b, signed) then Padded(body, width, pad)
    else if width != 0 && pad.zero then "-" + Padded(body, width - 1, pad)
    else Padded("-" + body, width, pad)
  }

  /** The string that starts at `from` and ends before the first NUL. */
  predicate IsCString(buf: seq<char>, from: nat, s: string) {
    && from + |s| < |buf| && buf[from..from + |s|] == s && buf[from + |s|] == '\0'
    && forall k :: 0 <= k < |s| ==> s[k] != '\0'
  }

  lemma CStringAt(buf: seq<char>, from: nat, s: string, k: nat)
    requires IsCString(buf, from, s) && k <= |s|
    ensures if k < |s| then buf[from + k] == s[k] != '\0' else buf[from + k] == '\0'
  {
    assert k < |s| ==> buf[from..from + |s|][k] == buf[from + k];
  }

  method PutFill(text: string, c: char, width: int) returns (out: string, pc: nat)
    ensures pc == Missing(width, 0) && out == text + Fill(c, pc)
  {
    out, pc := text, 0;
    var rest := width;
    while rest > 0
      invariant pc + rest == width || (rest == width && pc == 0)
      invariant rest < 0 ==> rest == width
      invariant out == text + Fill(c, pc)
    {
      out, pc, rest := out + [c], pc + 1, rest - 1;
    }
  }

  method PutString(text: string, buf: array<char>, from: nat, ghost s: string) returns (out: string, pc: nat)
    requires IsCString(buf[..], from, s)
    ensures out == text + s && pc == |s|
  {
    hide IsCString;
    out, pc := text, 0;
    CStringBounds(buf[..], from, s);
    CStringAt(buf[..], from, s, 0);
    while buf[from + pc] != '\0'
      invariant 0 <= pc <= |s| && out == text + s[..pc]
      invariant buf[from + pc] == if pc < |s| then s[pc] else '\0'
      decreases |s| - pc
    {
      CStringAt(buf[..], from, s, pc);
      CStringAt(buf[..], from, s, pc + 1);
      out, pc := out + [buf[from + pc]], pc + 1;
    }
    CStringAt(buf[..], from, s, pc);
  }

  lemma CStringBounds(buf: seq<char>, from: nat, s: string)
    requires IsCString(buf, from, s)
    ensures from + |s| < |buf|
  {
  }

  method Length(buf: array<char>, from: nat, ghost s: string) returns (len: nat)
    requires IsCString(buf[..], from, s)
    ensures len == |s|
  {
    hide IsCString;
    len := 0;
    CStringBounds(buf[..], from, s);
    CStringAt(buf[..], from, s, 0);
    while buf[from + len] != '\0'
      invariant 0 <= len <= |s|
      invariant buf[from + len] == if len < |s| then s[len] else '\0'
      decreases |s| - len
    {
      CStringAt(buf[..], from, s, len);
      CStringAt(buf[..], from, s, len + 1);
      len := len + 1;
    }
    CStringAt(buf[..], from, s, len);
  }

  method Prints(buf: array<char>, from: nat, ghost s: string, width: int, pad: Pad) returns (out: string, pc: nat)
    requires IsCString(buf[..], from, s)
    ensures out == Padded(s, width, pad) && pc == |out|
  {
    hide IsCString;
    var padchar, rest := ' ', width;
    if width > 0 {
      var len := Length(buf, from, s);
      rest := if len >= width then 0 else width - len;
      if pad.zero {
        padchar := '0';
      }
    }
    hide Fill;
    ghost var fill := Fill(if pad.zero then '0' else ' ', Missing(width, |s|));
    FillNothing(padchar);
    var n: nat;
    out, pc := [], 0;
    if !pad.right {
      out, n := PutFill(out, padchar, rest);
      pc, rest := pc + n, 0;
      assert out == fill;
    }
    out, n := PutString(out, buf, from, s);
    pc := pc + n;
    assert out == if pad.right then s else fill + s;
    out, n := PutFill(out, padchar, rest);
    pc := pc + n;
    assert pad.right ==> out == s + fill;
  }

  lemma FillNothing(c: char)
    ensures Fill(c, 0) == [] && Fill('0', 0) == [] && Fill(' ', 0) == []
  {
  }

  function Pow(b: nat, k: nat): nat {
    if k == 0 then 1 else b * Pow(b, k - 1)
  }

  /** The most digits a 32-bit word has. */
  function MaxDigits(b: nat): nat { if b == 10 then 10 else 8 }

  lemma WordFits(b: nat)
    requires Base(b)
    ensures WORD <= Pow(b, MaxDigits(b))
  {
    if b == 10 {
      assert Pow(10, 5) == 100000;
      assert Pow(10, 10) == 10 * (10 * (10 * (10 * (10 * Pow(10, 5)))));
    } else {
      assert Pow(16, 4) == 0x1_0000;
      assert Pow(16, 8) == 16 * (16 * (16 * (16 * Pow(16, 4))));
    }
  }

  method Printi(i: s32, b: nat, signed: bool, width: int, pad: Pad, upper: bool) returns (out: string, pc: nat)
    requires Base(b)
    ensures out == Printed(i, b, signed, width, pad, upper) && pc == |out|
  {
    var printBuf := new char[PRINT_BUF_LEN](_ => ' ');
    if i == 0 {
      printBuf[0], printBuf[1] := '0', '\0';
      out, pc := Prints(printBuf, 0, "0", width, pad);
    } else {
      var neg, u: nat := false, i % WORD;
      if signed && b == 10 && i < 0 {
        neg, u := true, -(i as int) % WORD;
      }
      ghost var all := Digits(u, b, upper);
      var s := PutDigits(printBuf, u, b, upper);
      if neg && width != 0 && pad.zero {
        out, pc := Prints(printBuf, s, all, width - 1, pad);
        out, pc := "-" + out, pc + 1;
      } else {
        if neg {
          s := PutChar(printBuf, s, '-', all);
          all := "-" + all;
        }
        out, pc := Prints(printBuf, s, all, width, pad);
      }
    }
  }

  /** Puts a character before a string. */
  method PutChar(buf: array<char>, at: nat, c: char, ghost s: string) returns (at': nat)
    requires 1 <= at && IsCString(buf[..], at, s) && c != '\0'
    modifies buf
    ensures at' == at - 1 && IsCString(buf[..], at', [c] + s)
  {
    at' := at - 1;
    ghost var before := buf[..];
    buf[at'] := c;
    Prepended(before, buf[..], at, c, s);
  }

  lemma DigitsMove(u: nat, b: nat, upper: bool, tail: string)
    requires Base(b) && u > 0
    ensures Digits(u, b, upper) + tail == Digits(Rest(u, b), b, upper) + ([DigitChar(Last(u, b), upper)] + tail)
  {
    hide Digits, DigitChar, Rest, Last;
    DigitsStep(u, b, upper);
  }

  lemma Prepended(buf: seq<char>, buf': seq<char>, at: nat, c: char, s: string)
    requires 1 <= at && IsCString(buf, at, s) && c != '\0'
    requires |buf'| == |buf| && buf' == buf[at - 1 := c]
    ensures IsCString(buf', at - 1, [c] + s)
  {
    assert buf'[at - 1..at + |s|] == [c] + buf[at..at + |s|];
  }

  /** The digit loop: fills the buffer from its end; one more place is left for a sign. */
  method PutDigits(buf: array<char>, value: nat, b: nat, upper: bool) returns (s: nat)
    requires Base(b) && 0 < value < WORD && buf.Length == PRINT_BUF_LEN
    modifies buf
    ensures 1 <= s && IsCString(buf[..], s, Digits(value, b, upper))
    ensures |Digits(value, b, upper)| <= MaxDigits(b)
  {
    hide Pow, IsCString, Digits, DigitChar, Rest, Last;
    s := PRINT_BUF_LEN - 1;
    buf[s] := '\0';
    var u: nat := value;
    ghost var tail: string := [];
    WordFits(b);
    EmptyCString(buf[..], s);
    while u > 0
      invariant |tail| <= MaxDigits(b) && u < Pow(b, MaxDigits(b) - |tail|)
      invariant s == PRINT_BUF_LEN - 1 - |tail| && IsCString(buf[..], s, tail)
      invariant Digits(u, b, upper) + tail == Digits(value, b, upper)
    {
      PowStep(u, b, MaxDigits(b) - |tail|);
      DigitsMove(u, b, upper, tail);
      DigitPrints(Last(u, b), upper);
      var c := DigitChar(Last(u, b), upper);
      s := PutChar(buf, s, c, tail);
      tail := [c] + tail;
      u := Rest(u, b);
    }
    NoDigits(b, upper);
    assert [] + tail == tail;
  }

  lemma EmptyCString(buf: seq<char>, at: nat)
    requires at < |buf| && buf[at] == '\0'
    ensures IsCString(buf, at, [])
  {
  }

  lemma NoDigits(b: nat, upper: bool)
    requires Base(b)
    ensures Digits(0, b, upper) == []
  {
  }

  lemma DigitsStep(u: nat, b: nat, upper: bool)
    requires Base(b) && u > 0
    ensures Digits(u, b, upper) == Digits(Rest(u, b), b, upper) + [DigitChar(Last(u, b), upper)]
  {
  }

  lemma PowStep(u: nat, b: nat, k: nat)
    requires Base(b) && 0 < u < Pow(b, k)
    ensures 1 <= k && Rest(u, b) < Pow(b, k - 1)
  {
  }

  lemma DigitPrints(d: nat, upper: bool)
    requires d < 16
    ensures DigitChar(d, upper) != '\0'
  {
  }

  // --------------------------------------------------------------- reading back

  lemma DigitReads(d: nat, upper: bool)
    requires d < 16
    ensures DigitValue(DigitChar(d, upper)) == Some(d)
  {
  }

  lemma ReadSnoc(s: string, c: char, b: nat)
    requires DigitValue(c).Some? && DigitValue(c).value < b
    ensures |s| == 0 ==> ReadDigits(s + [c], b) == DigitValue(c)
    ensures |s| > 0 && ReadDigits(s, b).Some? ==>
      ReadDigits(s + [c], b) == Some(ReadDigits(s, b).value * b + DigitValue(c).value)
  {
    hide DigitValue;
    assert (s + [c])[..|s|] == s;
  }

  lemma Recompose(u: nat, b: nat)
    requires Base(b)
    ensures Rest(u, b) * b + Last(u, b) == u && Last(u, b) < b
  {
  }

  lemma {:induction false} DigitsRead(u: nat, b: nat, upper: bool)
    requires Base(b) && u > 0
    ensures ReadDigits(Digits(u, b, upper), b) == Some(u)
  {
    hide DigitValue, DigitChar, ReadDigits, Digits, Rest, Last;
    Recompose(u, b);
    DigitReads(Last(u, b), upper);
    DigitsStep(u, b, upper);
    ReadSnoc(Digits(Rest(u, b), b, upper), DigitChar(Last(u, b), upper), b);
    if Rest(u, b) > 0 {
      DigitsRead(Rest(u, b), b, upper);
      DigitsAtEnds(Digits(Rest(u, b), b, upper), b);
    } else {
      NoDigits(b, upper);
    }
  }

  lemma {:induction false} ZerosRead(k: nat, b: nat)
    requires Base(b) && k > 0
    ensures ReadDigits(Fill('0', k), b) == Some(0)
  {
    if k > 1 {
      ZerosRead(k - 1, b);
      assert Fill('0', k)[..k - 1] == Fill('0', k - 1);
    }
  }

  lemma {:induction false} SplitLast(s: string, b: nat)
    requires ReadDigits(s, b).Some?
    ensures |s| > 0 && s == s[..|s| - 1] + [s[|s| - 1]]
    ensures DigitValue(s[|s| - 1]).Some? && DigitValue(s[|s| - 1]).value < b
    ensures |s| > 1 ==> ReadDigits(s[..|s| - 1], b).Some?
  {
    hide WithDigit;
  }

  /** Leading zeros do not count. */
  lemma {:induction false} LeadingZeros(k: nat, s: string, b: nat)
    requires Base(b) && ReadDigits(s, b).Some?
    ensures ReadDigits(Fill('0', k) + s, b) == ReadDigits(s, b)
  {
    hide DigitValue, ReadDigits;
    SplitLast(s, b);
    var init, last := s[..|s| - 1], s[|s| - 1];
    assert Fill('0', k) + s == (Fill('0', k) + init) + [last];
    ReadSnoc(init, last, b);
    ReadSnoc(Fill('0', k) + init, last, b);
    if |init| > 0 {
      LeadingZeros(k, init, b);
    } else {
      assert Fill('0', k) + init == Fill('0', k);
      if k > 0 {
        ZerosRead(k, b);
      }
    }
  }

  /** Trailing zeros multiply. */
  lemma {:induction false} TrailingZeros(s: string, k: nat, b: nat)
    requires Base(b) && ReadDigits(s, b).Some?
    ensures ReadDigits(s + Fill('0', k), b) == Some(ReadDigits(s, b).value * Pow(b, k))
  {
    hide DigitValue, ReadDigits, Pow;
    PowUnfold(b, k);
    if k == 0 {
      assert s + Fill('0', 0) == s;
    } else {
      TrailingZeros(s, k - 1, b);
      ZeroDigit();
      assert s + Fill('0', k) == (s + Fill('0', k - 1)) + ['0'];
      DigitsAtEnds(s, b);
      ReadSnoc(s + Fill('0', k - 1), '0', b);
      Associate(ReadDigits(s, b).value, Pow(b, k - 1), b);
    }
  }

  lemma ZeroDigit()
    ensures DigitValue('0') == Some(0)
  {
  }

  lemma PowUnfold(b: nat, k: nat)
    ensures Pow(b, k) == if k == 0 then 1 else b * Pow(b, k - 1)
  {
  }

  lemma Associate(v: int, p: int, b: int)
    ensures v * p * b == v * (b * p)
  {
  }

  lemma PowGrows(b: nat, k: nat)
    requires Base(b)
    ensures Pow(b, k) >= 1 && (k > 0 ==> Pow(b, k) >= 2)
  {
    if k > 0 {
      PowGrows(b, k - 1);
    }
  }

  /** A row of digits begins and ends with a digit. */
  lemma {:induction false} DigitsAtEnds(s: string, b: nat)
    requires ReadDigits(s, b).Some?
    ensures |s| > 0 && DigitValue(s[0]).Some? && DigitValue(s[|s| - 1]).Some?
  {
    if |s| > 1 {
      DigitsAtEnds(s[..|s| - 1], b);
    }
  }

  lemma {:induction false} SkipLeadingFill(k: nat, t: string)
    requires |t| > 0 && t[0] != ' '
    ensures SkipLeading(Fill(' ', k) + t) == t
  {
    if k > 0 {
      assert (Fill(' ', k) + t)[1..] == Fill(' ', k - 1) + t;
      SkipLeadingFill(k - 1, t);
    } else {
      assert Fill(' ', 0) + t == t;
    }
  }

  lemma {:induction false} SkipTrailingFill(t: string, k: nat)
    requires |t| > 0 && t[|t| - 1] != ' '
    ensures SkipTrailing(t + Fill(' ', k)) == t
  {
    if k > 0 {
      assert (t + Fill(' ', k))[..|t| + k - 1] == t + Fill(' ', k - 1);
      SkipTrailingFill(t, k - 1);
    } else {
      assert t + Fill(' ', 0) == t;
    }
  }

  function Sign(neg: bool): string { if neg then "-" else "" }

  function Signed(neg: bool, v: int): int { if neg then -v else v }

  /** Blanks on either side of a sign and digits do not change the number. */
  lemma ReadCore(neg: bool, digits: string, before: nat, after: nat, b: nat)
    requires ReadDigits(digits, b).Some?
    ensures Read(Fill(' ', before) + (Sign(neg) + digits) + Fill(' ', after), b)
         == Some(Signed(neg, ReadDigits(digits, b).value))
  {
    hide ReadDigits;
    DigitsAtEnds(digits, b);
    var t := Sign(neg) + digits;
    var s := Fill(' ', before) + t + Fill(' ', after);
    assert s == Fill(' ', before) + (t + Fill(' ', after));
    SkipLeadingFill(before, t + Fill(' ', after));
    SkipTrailingFill(t, after);
    assert SkipTrailing(SkipLeading(s)) == t;
    if neg {
      assert t[0] == '-' && t[1..] == digits;
    } else {
      assert t == digits && t[0] != '-';
    }
  }

  lemma ReadPlain(neg: bool, digits: string, b: nat)
    requires ReadDigits(digits, b).Some?
    ensures Read(Sign(neg) + digits, b) == Some(Signed(neg, ReadDigits(digits, b).value))
  {
    ReadCore(neg, digits, 0, 0, b);
    assert Fill(' ', 0) + (Sign(neg) + digits) + Fill(' ', 0) == Sign(neg) + digits;
  }

  // ---------------------------------------------------------------- main results

  /** Digits above nine are letters of the case asked for. */
  lemma {:induction false} LetterCase(u: nat, b: nat, upper: bool)
    requires Base(b)
    ensures forall k :: 0 <= k < |Digits(u, b, upper)| ==> var c := Digits(u, b, upper)[k];
      '0' <= c <= '9' || (if upper then 'A' <= c <= 'F' else 'a' <= c <= 'f')
  {
    if u > 0 {
      LetterCase(Rest(u, b), b, upper);
    }
  }

  /** The characters a number needs: its digits and a sign. */
  function NaturalLength(i: s32, b: nat, signed: bool, upper: bool): nat
    requires Base(b)
  {
    |Sign(Negative(i, b, signed))| + |Body(i, b, signed, upper)|
  }

  /** Where sign, digits and padding stand. */
  lemma Layout(i: s32, b: nat, signed: bool, width: int, pad: Pad, upper: bool)
    requires Base(b)
    ensures var sign, body := Sign(Negative(i, b, signed)), Body(i, b, signed, upper);
      var k := Missing(width, NaturalLength(i, b, signed, upper));
      var text := Printed(i, b, signed, width, pad, upper);
      && (!pad.zero && !pad.right ==> text == Fill(' ', k) + (sign + body) + Fill(' ', 0))
      && (!pad.zero && pad.right ==> text == Fill(' ', 0) + (sign + body) + Fill(' ', k))
      && (pad.zero && !pad.right ==> text == sign + (Fill('0', k) + body))
      && (pad.zero && pad.right ==> text == sign + (body + Fill('0', k)))
  {
    hide Body, Fill;
    FillNothing(' ');
    var sign, body := Sign(Negative(i, b, signed)), Body(i, b, signed, upper);
    var k := Missing(width, NaturalLength(i, b, signed, upper));
    NoBlanks(sign + body);
    NoBlanks(body);
    NoBlanks(sign + body + Fill(' ', k));
    NoBlanks(Fill(' ', k) + (sign + body));
    var zeros := Fill('0', k);
    assert sign + (zeros + body) == (sign + zeros) + body;
    assert sign + (body + zeros) == (sign + body) + zeros;
    assert Missing(width - 1, |body|) == Missing(width, |body| + 1);
    assert !Negative(i, b, signed) ==> sign + body == body && sign + zeros == zeros;
  }

  lemma NoBlanks(s: string)
    ensures [] + s == s && s + [] == s
  {
  }

  /** The count is the number of characters emitted: the width, or what the number needs if
      that is more. */
  lemma PrintedLength(i: s32, b: nat, signed: bool, width: int, pad: Pad, upper: bool)
    requires Base(b)
    ensures var len := NaturalLength(i, b, signed, upper);
      |Printed(i, b, signed, width, pad, upper)| == if width > len then width else len
  {
    hide Printed, Body;
    Layout(i, b, signed, width, pad, upper);
  }

  lemma BodyReads(i: s32, b: nat, signed: bool, upper: bool)
    requires Base(b)
    ensures ReadDigits(Body(i, b, signed, upper), b) == Some(Magnitude(i, b, signed))
    ensures Meant(i, b, signed) == Signed(Negative(i, b, signed), Magnitude(i, b, signed))
    ensures Magnitude(i, b, signed) == 0 <==> i == 0
  {
    hide Magnitude, Meant, Digits, ReadDigits;
    MagnitudeMeant(i, b, signed);
    if i == 0 {
      ZeroReads(b);
    } else {
      DigitsRead(Magnitude(i, b, signed), b, upper);
    }
  }

  lemma MagnitudeMeant(i: s32, b: nat, signed: bool)
    ensures Meant(i, b, signed) == Signed(Negative(i, b, signed), Magnitude(i, b, signed))
    ensures Magnitude(i, b, signed) == 0 <==> i == 0
  {
  }

  lemma ZeroReads(b: nat)
    requires Base(b)
    ensures ReadDigits("0", b) == Some(0)
  {
  }

  /** The text reads back as exactly the number, unless zeros were padded to its right. */
  lemma ReadsBack(i: s32, b: nat, signed: bool, width: int, pad: Pad, upper: bool)
    requires Base(b)
    ensures Read(Printed(i, b, signed, width, pad, upper), b) == Some(Meant(i, b, signed))
      <==> !(pad.right && pad.zero && width > NaturalLength(i, b, signed, upper) && i != 0)
  {
    hide Printed, Body, Read, ReadDigits, Magnitude, Meant, NaturalLength;
    var neg, body := Negative(i, b, signed), Body(i, b, signed, upper);
    var k := Missing(width, NaturalLength(i, b, signed, upper));
    Layout(i, b, signed, width, pad, upper);
    BodyReads(i, b, signed, upper);
    if !pad.zero {
      ReadCore(neg, body, if pad.right then 0 else k, if pad.right then k else 0, b);
    } else if !pad.right {
      LeadingZeros(k, body, b);
      ReadPlain(neg, Fill('0', k) + body, b);
    } else {
      TrailingZeros(body, k, b);
      ReadPlain(neg, body + Fill('0', k), b);
      PowGrows(b, k);
      ProductGrows(Magnitude(i, b, signed), Pow(b, k));
      PowZero(b);
    }
  }

  lemma ProductGrows(v: nat, p: nat)
    ensures p >= 2 && v > 0 ==> v * p > v
    ensures p == 1 || v == 0 ==> v * p == v
  {
    if p >= 2 {
      MulMonotone(2, p, v);
    }
  }

  lemma PowZero(b: nat)
    ensures Pow(b, 0) == 1
  {
  }
}
