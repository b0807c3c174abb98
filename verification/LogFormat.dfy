/**
  The raw log formatter: text is produced one character at a time into a 32-byte buffer that is sent
  to the output whenever it is full, and numbers through a 12-byte digit buffer.
*/
module LogFormat {
  import opened Words

  const PRINT_BUFF_SIZE: nat := 32
  const NUM_BUFF_SIZE: nat := 12
  const TWO_31: nat := 0x8000_0000
  const UNSUPPORTED: string := "[Unsupported Tag]"

  // A variadic argument: 32 bits, or a string up to its terminator
  datatype Arg = Word(bits: nat) | Str(text: string)

  // ---------------------------------------------------------------- numbers

  // Digits of n, most significant first
  function Digits(n: nat, base: nat): (ds: seq<nat>)
    requires base == 10 || base == 16
    ensures |ds| >= 1 && forall i :: 0 <= i < |ds| ==> ds[i] < base
  {
    if n < base then [n] else Digits(n / base, base) + [n % base]
  }

  function DigitChar(d: nat, upper: bool): char
    requires d < 16
  {
    if d < 10 then '0' + d as char else if upper then 'A' + (d - 10) as char else 'a' + (d - 10) as char
  }

  function NumText(n: nat, base: nat, upper: bool): (t: string)
    requires base == 10 || base == 16
    ensures |t| == |Digits(n, base)|
  {
    var ds := Digits(n, base);
    seq(|ds|, i requires 0 <= i < |ds| => DigitChar(ds[i], upper))
  }

  // The value as a signed number, and its text: INT32_MIN negates to itself in 32 bits, which is
  // its magnitude when read unsigned
  function Signed(bits: nat): int { if bits < TWO_31 then bits else bits - TWO_32 }

  function SignedText(bits: nat): string
    requires bits < TWO_32
  {
    if bits < TWO_31 then NumText(bits, 10, false) else "-" + NumText(TWO_32 - bits, 10, false)
  }

  // Reading a number back
  function CharDigit(c: char): nat {
    if '0' <= c <= '9' then (c - '0') as nat
    else if 'a' <= c <= 'f' then (c - 'a') as nat + 10
    else if 'A' <= c <= 'F' then (c - 'A') as nat + 10
    else 16
  }

  function Parse(t: string, base: nat): nat {
    if t == "" then 0 else Parse(t[..|t| - 1], base) * base + CharDigit(t[|t| - 1])
  }

  function ParseSigned(t: string): int {
    var magnitude: int := if t != "" && t[0] == '-' then Parse(t[1..], 10) else Parse(t, 10);
    if t != "" && t[0] == '-' then -magnitude else magnitude
  }

  lemma NumTextSnoc(n: nat, base: nat, upper: bool)
    requires (base == 10 || base == 16) && n >= base
    ensures NumText(n, base, upper) == NumText(n / base, base, upper) + [DigitChar(n % base, upper)]
  {
  }

  lemma DigitReadsBack(d: nat, upper: bool)
    requires d < 16
    ensures CharDigit(DigitChar(d, upper)) == d
  {
  }

  // Reading one more digit
  lemma ParseSnoc(t: string, c: char, base: nat)
    ensures Parse(t + [c], base) == Parse(t, base) * base + CharDigit(c)
  {
    assert (t + [c])[..|t|] == t;
  }

  lemma {:induction false} NumTextParses(n: nat, base: nat, upper: bool)
    requires base == 10 || base == 16
    ensures Parse(NumText(n, base, upper), base) == n
    decreases n
  {
    if n < base {
      DigitReadsBack(n, upper);
      assert NumText(n, base, upper) == "" + [DigitChar(n, upper)];
      ParseSnoc("", DigitChar(n, upper), base);
    } else {
      var q, d := LastDigit(n, base, upper);
      NumTextParses(q, base, upper);
      DigitReadsBack(d, upper);
      ParseSnoc(NumText(q, base, upper), DigitChar(d, upper), base);
    }
  }

  // A number of more than one digit, without its last one
  lemma LastDigit(n: nat, base: nat, upper: bool) returns (q: nat, d: nat)
    requires (base == 10 || base == 16) && n >= base
    ensures q < n && d < 16 && q * base + d == n
    ensures NumText(n, base, upper) == NumText(q, base, upper) + [DigitChar(d, upper)]
  {
    NumTextSnoc(n, base, upper);
    if base == 10 {
      q, d := n / 10, n % 10;
    } else {
      q, d := n / 16, n % 16;
    }
  }

  function Pow(base: nat, k: nat): nat {
    if k == 0 then 1 else base * Pow(base, k - 1)
  }

  lemma {:induction false} DigitsFit(n: nat, base: nat, k: nat)
    requires (base == 10 || base == 16) && k >= 1 && n < Pow(base, k)
    ensures |Digits(n, base)| <= k
    decreases k
  {
    assert Pow(base, 1) == base * Pow(base, 0) == base;
    if n >= base {
      if base == 10 {
        assert n < 10 * Pow(base, k - 1);
        DigitsFit(n / 10, base, k - 1);
      } else {
        assert n < 16 * Pow(base, k - 1);
        DigitsFit(n / 16, base, k - 1);
      }
    }
  }

  // A 32-bit number has at most ten decimal digits, or eight hexadecimal ones.
  lemma WordDigitsFit(n: nat, base: nat)
    requires n < TWO_32 && (base == 10 || base == 16)
    ensures |Digits(n, base)| <= 10 < NUM_BUFF_SIZE
  {
    if base == 10 {
      assert Pow(10, 2) == 100 && Pow(10, 4) == 1_0000 && Pow(10, 6) == 100_0000 && Pow(10, 8) == 1_0000_0000;
      assert Pow(10, 10) == 100_0000_0000;
    } else {
      assert Pow(16, 2) == 0x100 && Pow(16, 4) == 0x1_0000 && Pow(16, 6) == 0x100_0000 && Pow(16, 8) == TWO_32;
      assert Pow(16, 10) == 0x100 * TWO_32;
    }
    DigitsFit(n, base, 10);
  }

  /** The decimal and hexadecimal texts of a 32-bit argument read back as that argument. */
  lemma NumbersRoundTrip(bits: nat, upper: bool)
    requires bits < TWO_32
    ensures ParseSigned(SignedText(bits)) == Signed(bits)
    ensures Parse(NumText(bits, 10, false), 10) == bits
    ensures Parse(NumText(bits, 16, upper), 16) == bits
  {
    NumTextParses(bits, 10, false);
    NumTextParses(bits, 16, upper);
    if bits < TWO_31 {
      var t := NumText(bits, 10, false);
      assert t[0] == DigitChar(Digits(bits, 10)[0], false) != '-';
    } else {
      NumTextParses(TWO_32 - bits, 10, false);
      assert SignedText(bits)[1..] == NumText(TWO_32 - bits, 10, false);
    }
  }

  // ---------------------------------------------------------------- the format

  predicate TakesWord(tag: char) { tag in "diuxXpc" }

  predicate TakesArg(tag: char) { TakesWord(tag) || tag == 's' }

  predicate ArgFits(tag: char, a: Arg) {
    if TakesWord(tag) then a.Word? && a.bits < TWO_32 else a.Str?
  }

  function TagText(tag: char, a: Arg): string
    requires TakesArg(tag) && ArgFits(tag, a)
  {
    match tag
    case 'd' => SignedText(a.bits)
    case 'i' => SignedText(a.bits)
    case 'u' => NumText(a.bits, 10, false)
    case 'x' => NumText(a.bits, 16, false)
    case 'X' => NumText(a.bits, 16, true)
    case 'p' => "0x" + NumText(a.bits, 16, false)
    case 'c' => [(a.bits % 256) as char]
    case _ => a.text
  }

  // The arguments from j on match the tags of the format from i on.
  predicate Matches(fmt: string, i: nat, args: seq<Arg>, j: nat)
    requires i <= |fmt|
    decreases |fmt| - i
  {
    if i == |fmt| then true
    else if fmt[i] != '%' || i + 1 == |fmt| then Matches(fmt, i + 1, args, j)
    else if fmt[i + 1] == '%' then Matches(fmt, i + 2, args, j)
    else if TakesArg(fmt[i + 1]) then j < |args| && ArgFits(fmt[i + 1], args[j]) && Matches(fmt, i + 2, args, j + 1)
    else Matches(fmt, i + 1, args, j)
  }

  // What the format from i on stands for. After an unsupported tag its character is plain text.
  function Render(fmt: string, i: nat, args: seq<Arg>, j: nat): string
    requires i <= |fmt| && Matches(fmt, i, args, j)
    decreases |fmt| - i
  {
    if i == |fmt| then ""
    else if fmt[i] != '%' then [fmt[i]] + Render(fmt, i + 1, args, j)
    else if i + 1 == |fmt| then UNSUPPORTED + Render(fmt, i + 1, args, j)
    else if fmt[i + 1] == '%' then "%" + Render(fmt, i + 2, args, j)
    else if TakesArg(fmt[i + 1]) then TagText(fmt[i + 1], args[j]) + Render(fmt, i + 2, args, j + 1)
    else UNSUPPORTED + Render(fmt, i + 1, args, j)
  }

  // ---------------------------------------------------------------- the printer

  function Concat(chunks: seq<string>): string {
    if chunks == [] then "" else Concat(chunks[..|chunks| - 1]) + chunks[|chunks| - 1]
  }

  class Printer {
    const buf: array<char>
    var pos: nat
    var chunks: seq<string>     // what stdio_output_string received, call by call

    ghost predicate Valid()
      reads this
    {
      && buf.Length == PRINT_BUFF_SIZE && pos < PRINT_BUFF_SIZE
      && forall k :: 0 <= k < |chunks| ==> |chunks[k]| == PRINT_BUFF_SIZE
    }

    // Everything produced so far, sent or still in the buffer
    ghost function Produced(): string
      requires Valid()
      reads this, buf
    {
      Concat(chunks) + buf[..pos]
    }

    constructor ()
      ensures Valid() && fresh(buf) && Produced() == "" && chunks == []
    {
      buf := new char[PRINT_BUFF_SIZE](_ => '0');
      pos, chunks := 0, [];
    }

    // _tfm_flush_formatted_buffer
    method Put(c: char)
      requires Valid()
      modifies this, buf
      ensures Valid() && Produced() == old(Produced()) + [c]
    {
      buf[pos] := c;
      pos := pos + 1;
      assert buf[..pos] == old(buf[..pos]) + [c];
      if pos >= PRINT_BUFF_SIZE {
        chunks := chunks + [buf[..]];
        pos := 0;
        assert chunks[..|chunks| - 1] == old(chunks) && buf[..] == old(buf[..pos]) + [c];
      }
    }

    // _tfm_string_output
    method PutString(s: string)
      requires Valid()
      modifies this, buf
      ensures Valid() && Produced() == old(Produced()) + s
    {
      for i := 0 to |s|
        invariant Valid() && Produced() == old(Produced()) + s[..i]
      {
        Put(s[i]);
        assert s[..i + 1] == s[..i] + [s[i]];
      }
      assert s[..|s|] == s;
    }

    // The digit loops of _tfm_dec_num_output and _tfm_hex_num_output
    method PutNumber(n: nat, base: nat, upper: bool)
      requires Valid() && n < TWO_32 && (base == 10 || base == 16)
      modifies this, buf
      ensures Valid() && Produced() == old(Produced()) + NumText(n, base, upper)
    {
      var numBuff := new char[NUM_BUFF_SIZE](_ => '0');
      WordDigitsFit(n, base);
      var k := FillDigits(numBuff, n, base, upper);
      PutReversed(numBuff, k, NumText(n, base, upper));
    }

    // The characters of the digit buffer, last one first
    method PutReversed(numBuff: array<char>, count: nat, ghost text: string)
      requires Valid() && numBuff != buf && count == |text| <= numBuff.Length
      requires forall i :: 0 <= i < count ==> numBuff[i] == text[count - 1 - i]
      modifies this, buf
      ensures Valid() && Produced() == old(Produced()) + text
    {
      var k := count;
      ghost var i := 0;
      while k > 0
        invariant 0 <= k <= count && i == count - k && Valid()
        invariant Produced() == old(Produced()) + text[..i]
      {
        k := k - 1;
        Put(numBuff[k]);
        Regroup(old(Produced()), text[..i], [text[i]], text[..i + 1]);
        i := i + 1;
      }
      assert text[..i] == text;
    }

    // Least significant digit first
    method FillDigits(numBuff: array<char>, n: nat, base: nat, upper: bool) returns (k: nat)
      requires n < TWO_32 && (base == 10 || base == 16) && numBuff.Length == NUM_BUFF_SIZE
      requires |NumText(n, base, upper)| <= NUM_BUFF_SIZE
      modifies numBuff
      ensures k == |NumText(n, base, upper)|
      ensures forall i :: 0 <= i < k ==> numBuff[i] == NumText(n, base, upper)[k - 1 - i]
    {
      ghost var text := NumText(n, base, upper);
      var number: nat := n;
      k := 0;
      while true
        invariant k + |NumText(number, base, upper)| == |text|
        invariant NumText(number, base, upper) <= text
        invariant forall i :: 0 <= i < k ==> numBuff[i] == text[|text| - 1 - i]
        decreases number
      {
        numBuff[k] := DigitChar(number % base, upper);
        k := k + 1;
        if number / base == 0 {
          break;
        }
        NumTextSnoc(number, base, upper);
        number := number / base;
      }
    }

    method PutSigned(bits: nat)
      requires Valid() && bits < TWO_32
      modifies this, buf
      ensures Valid() && Produced() == old(Produced()) + SignedText(bits)
    {
      var magnitude := if bits >= TWO_31 then TWO_32 - bits else bits;
      ghost var done, text := Produced(), NumText(magnitude, 10, false);
      if bits >= TWO_31 {
        Put('-');
        Regroup(done, "-", text, SignedText(bits));
      }
      PutNumber(magnitude, 10, false);
    }

    // %p: a hexadecimal number with its prefix
    method PutPointer(bits: nat)
      requires Valid() && bits < TWO_32
      modifies this, buf
      ensures Valid() && Produced() == old(Produced()) + ("0x" + NumText(bits, 16, false))
    {
      ghost var done, text := Produced(), NumText(bits, 16, false);
      PutString("0x");
      Regroup(done, "0x", text, "0x" + text);
      PutNumber(bits, 16, false);
    }

    method PutTag(tag: char, a: Arg)
      requires Valid() && TakesArg(tag) && ArgFits(tag, a)
      modifies this, buf
      ensures Valid() && Produced() == old(Produced()) + TagText(tag, a)
    {
      match tag {
        case 'd' => PutSigned(a.bits);
        case 'i' => PutSigned(a.bits);
        case 'u' => PutNumber(a.bits, 10, false);
        case 'x' => PutNumber(a.bits, 16, false);
        case 'X' => PutNumber(a.bits, 16, true);
        case 'p' => PutPointer(a.bits);
        case 'c' => Put((a.bits % 256) as char);
        case _ => PutString(a.text);
      }
    }

    // One round of the format loop
    method PutNext(fmt: string, i: nat, args: seq<Arg>, j: nat) returns (i': nat, j': nat, ghost piece: string)
      requires Valid() && i < |fmt| && Matches(fmt, i, args, j)
      modifies this, buf
      ensures Valid() && i < i' <= |fmt| && Matches(fmt, i', args, j')
      ensures Produced() == old(Produced()) + piece
      ensures Render(fmt, i, args, j) == piece + Render(fmt, i', args, j')
    {
      j' := j;
      if fmt[i] == '%' {
        if i + 1 < |fmt| && fmt[i + 1] == '%' {
          Put('%');
          i', piece := i + 2, "%";
        } else if i + 1 < |fmt| && TakesArg(fmt[i + 1]) {
          PutTag(fmt[i + 1], args[j]);
          i', j', piece := i + 2, j + 1, TagText(fmt[i + 1], args[j]);
        } else {
          PutString(UNSUPPORTED);
          i', piece := i + 1, UNSUPPORTED;
        }
      } else {
        Put(fmt[i]);
        i', piece := i + 1, [fmt[i]];
      }
    }

    method PutAll(fmt: string, args: seq<Arg>)
      requires Valid() && Matches(fmt, 0, args, 0)
      modifies this, buf
      ensures Valid() && Produced() == old(Produced()) + Render(fmt, 0, args, 0)
    {
      ghost var text := old(Produced()) + Render(fmt, 0, args, 0);
      var i, j := 0, 0;
      while i < |fmt|
        invariant i <= |fmt| && Valid() && Matches(fmt, i, args, j)
        invariant Produced() + Render(fmt, i, args, j) == text
      {
        ghost var done, rest := Produced(), Render(fmt, i, args, j);
        ghost var piece;
        i, j, piece := PutNext(fmt, i, args, j);
        Regroup(done, piece, Render(fmt, i, args, j), rest);
      }
      assert Produced() + "" == Produced();
    }

    // The end of _tfm_log_vprintf: what is left in the buffer is sent
    method Flush()
      requires Valid()
      modifies this`chunks
      ensures Concat(chunks) == old(Produced())
      ensures forall k :: 0 <= k < |chunks| ==> 0 < |chunks[k]| <= PRINT_BUFF_SIZE
    {
      if pos > 0 {
        chunks := chunks + [buf[..pos]];
        assert chunks[..|chunks| - 1] == old(chunks);
      } else {
        assert Concat(chunks) + buf[..pos] == Concat(chunks);
      }
    }

    /** _tfm_log_vprintf: the chunks sent to the output, put together, are the rendering of the format with
        its arguments, whatever the size of the buffer, and none is empty or longer than the buffer. */
    method Print(fmt: string, args: seq<Arg>)
      requires Valid() && pos == 0 && chunks == [] && Matches(fmt, 0, args, 0)
      modifies this, buf
      ensures Concat(chunks) == Render(fmt, 0, args, 0)
      ensures forall k :: 0 <= k < |chunks| ==> 0 < |chunks[k]| <= PRINT_BUFF_SIZE
    {
      assert Produced() == "";
      PutAll(fmt, args);
      Flush();
    }
  }

  lemma Regroup(done: string, piece: string, more: string, rest: string)
    requires rest == piece + more
    ensures (done + piece) + more == done + rest
  {
  }
}
