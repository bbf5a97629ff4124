/**
 * printk (lib/printk.c). print_char sends one character to the serial
 * port; here every method returns the characters it would send, in order,
 * so a caller's output is the concatenation of what it is returned. A C
 * string is a character sequence holding a NUL.
 */
module Printk {
  import opened Machine
  import opened Wrappers

  const LLONG_MIN: int := -0x8000_0000_0000_0000
  const LLONG_LIMIT: int := 0x8000_0000_0000_0000

  // ---------------------------------------------------------------------
  // Digits
  // ---------------------------------------------------------------------

  /** The character for a digit value: "0123456789ABCDEF"[d]. */
  function DigitChar(d: nat): (c: char)
    requires d < 16
  {
    "0123456789ABCDEF"[d]
  }

  /** The value of a digit character (0 for anything else). */
  function DigitValue(c: char): nat
  {
    if '0' <= c <= '9' then c as int - '0' as int
    else if 'A' <= c <= 'F' then c as int - 'A' as int + 10
    else 0
  }

  lemma DigitRoundTrip(d: nat)
    requires d < 16
    ensures DigitValue(DigitChar(d)) == d
  {
  }

  /** n's digits in the radix, most significant first, without leading zeros (none at all for 0). */
  function Digits(n: nat, radix: nat): (r: seq<char>)
    requires 2 <= radix <= 16
    decreases n
  {
    if n == 0 then [] else Digits(n / radix, radix) + [DigitChar(n % radix)]
  }

  /** The number a digit string stands for. */
  function ParseDigits(s: seq<char>, radix: nat): nat
  {
    if s == [] then 0 else ParseDigits(s[..|s| - 1], radix) * radix + DigitValue(s[|s| - 1])
  }

  /** Reading the digits back gives the number. */
  lemma {:induction false} DigitsRoundTrip(n: nat, radix: nat)
    requires 2 <= radix <= 16
    ensures ParseDigits(Digits(n, radix), radix) == n
    decreases n
  {
    if n > 0 {
      var s := Digits(n, radix);
      DivStep(n, radix);
      DigitsRoundTrip(n / radix, radix);
      assert s[..|s| - 1] == Digits(n / radix, radix);
      DigitRoundTrip(n % radix);
    }
  }

  /** A positive number's digits start with a nonzero digit. */
  lemma {:induction false} NoLeadingZero(n: nat, radix: nat)
    requires 2 <= radix <= 16 && n > 0
    ensures |Digits(n, radix)| > 0 && Digits(n, radix)[0] != '0' && Digits(n, radix)[0] != '-'
    decreases n
  {
    DivStep(n, radix);
    if n / radix > 0 {
      NoLeadingZero(n / radix, radix);
    } else {
      assert Digits(n, radix) == [DigitChar(n % radix)];
    }
  }

  /** radix^k. */
  function RadixPow(radix: nat, k: nat): nat
  {
    if k == 0 then 1 else radix * RadixPow(radix, k - 1)
  }

  lemma {:induction false} DigitsLength(n: nat, radix: nat, k: nat)
    requires 2 <= radix <= 16 && n < RadixPow(radix, k)
    ensures |Digits(n, radix)| <= k
    decreases n
  {
    if n > 0 {
      assert k > 0;
      DivStep(n, radix);
      assert n / radix < RadixPow(radix, k - 1) by {
        QuotientBelow(n, radix, RadixPow(radix, k - 1));
      }
      DigitsLength(n / radix, radix, k - 1);
    }
  }

  lemma {:induction false} RadixPowAdd(radix: nat, a: nat, b: nat)
    ensures RadixPow(radix, a + b) == RadixPow(radix, a) * RadixPow(radix, b)
    decreases a
  {
    if a > 0 {
      var p, q := RadixPow(radix, a - 1), RadixPow(radix, b);
      RadixPowAdd(radix, a - 1, b);
      assert RadixPow(radix, a + b) == radix * (p * q);
      assert radix * (p * q) == (radix * p) * q;
    }
  }

  /** One digit step: the quotient is smaller, and quotient and remainder rebuild the number. */
  lemma DivStep(n: nat, radix: nat)
    requires 2 <= radix && n > 0
    ensures 0 <= n / radix < n && 0 <= n % radix < radix
    ensures n == (n / radix) * radix + n % radix
  {
  }

  lemma QuotientBelow(n: nat, radix: nat, p: nat)
    requires radix > 0 && n < radix * p
    ensures n / radix < p
  {
  }

  /** The decimal text print_dec sends: "0", or an optional '-' and the digits. */
  function DecText(v: int): seq<char>
  {
    if v == 0 then "0" else if v < 0 then "-" + Digits(-v, 10) else Digits(v, 10)
  }

  /** The text print_hex sends: "0x0", or "0x" and the upper-case hex digits. */
  function HexText(v: nat): seq<char>
  {
    if v == 0 then "0x0" else "0x" + Digits(v, 16)
  }

  /** Reading a decimal text back: an optional '-', then digits. */
  function ParseDec(s: seq<char>): int
  {
    if |s| > 0 && s[0] == '-' then -(ParseDigits(s[1..], 10) as int) else ParseDigits(s, 10)
  }

  /** print_dec's text reads back as the value, starts with a nonzero digit unless it is "0", and has a '-' exactly for negatives. */
  lemma DecTextRoundTrip(v: int)
    ensures ParseDec(DecText(v)) == v
    ensures |DecText(v)| > 0 && (DecText(v)[0] == '-' <==> v < 0)
    ensures v > 0 ==> DecText(v)[0] != '0'
  {
    var t := DecText(v);
    if v > 0 {
      PositiveText(v);
    } else if v < 0 {
      NegativeText(v);
    } else {
      assert t == "0";
      assert ParseDigits(t, 10) == ParseDigits([], 10) * 10 + DigitValue('0');
    }
  }

  lemma PositiveText(v: int)
    requires v > 0
    ensures ParseDec(DecText(v)) == v && |DecText(v)| > 0
    ensures DecText(v)[0] != '-' && DecText(v)[0] != '0'
  {
    var d := Digits(v, 10);
    assert DecText(v) == d;
    DigitsRoundTrip(v, 10);
    NoLeadingZero(v, 10);
  }

  lemma NegativeText(v: int)
    requires v < 0
    ensures ParseDec(DecText(v)) == v && |DecText(v)| > 0 && DecText(v)[0] == '-'
  {
    var d := Digits(-v, 10);
    var t := DecText(v);
    assert t == "-" + d;
    DigitsRoundTrip(-v, 10);
    assert t[1..] == d;
  }

  /** print_hex's text is "0x" and digits that read back as the value, with no leading zero. */
  lemma HexTextRoundTrip(v: nat)
    ensures |HexText(v)| >= 3 && HexText(v)[..2] == "0x"
    ensures ParseDigits(HexText(v)[2..], 16) == v
    ensures v > 0 ==> HexText(v)[2] != '0'
  {
    if v > 0 {
      DigitsRoundTrip(v, 16);
      NoLeadingZero(v, 16);
      assert HexText(v)[2..] == Digits(v, 16);
    } else {
      assert HexText(v)[2..] == "0";
    }
  }

  // ---------------------------------------------------------------------
  // print_str, print_dec, print_hex
  // ---------------------------------------------------------------------

  function Reverse(s: seq<char>): (r: seq<char>)
    ensures |r| == |s|
  {
    if s == [] then [] else Reverse(s[1..]) + [s[0]]
  }

  lemma ReverseSnoc(s: seq<char>, c: char)
    ensures Reverse(s + [c]) == [c] + Reverse(s)
  {
    if s != [] {
      assert (s + [c])[1..] == s[1..] + [c];
      ReverseSnoc(s[1..], c);
    }
  }

  /** The characters of a C string, up to its NUL. */
  function Text(s: seq<char>): (r: seq<char>)
    requires '\0' in s
    ensures '\0' !in r
  {
    if s[0] == '\0' then [] else [s[0]] + Text(s[1..])
  }

  /** print_str(s). */
  method PrintStr(s: seq<char>) returns (out: seq<char>)
    requires '\0' in s
    ensures out == Text(s)
  {
    out := [];
    var i := 0;
    while s[i] != '\0'
      invariant i < |s| && '\0' in s[i..] && Text(s) == out + Text(s[i..])
      decreases |s| - i
    {
      assert s[i..][1..] == s[i + 1..];
      out := out + [s[i]];
      i := i + 1;
    }
  }

  /** The digit loop shared by print_dec and print_hex: fills a buffer least significant digit first, then sends it back to front. */
  method EmitDigits(value: nat, radix: nat, size: nat) returns (out: seq<char>)
    requires 2 <= radix <= 16 && value < RadixPow(radix, size)
    ensures out == Digits(value, radix)
  {
    DigitsLength(value, radix, size);
    var buffer := new char[size];
    var i := 0;
    var v: nat := value;
    while v > 0
      invariant i <= size && i + |Digits(v, radix)| == |Digits(value, radix)|
      invariant Digits(value, radix) == Digits(v, radix) + Reverse(buffer[..i])
      decreases v
    {
      DivStep(v, radix);
      buffer[i] := DigitChar(v % radix);
      assert buffer[..i + 1] == buffer[..i] + [buffer[i]];
      ReverseSnoc(buffer[..i], buffer[i]);
      i := i + 1;
      v := v / radix;
    }
    ghost var top := i;
    assert buffer[0..top] == buffer[..top];
    out := [];
    while i > 0
      invariant 0 <= i <= top && out == Reverse(buffer[i..top])
    {
      i := i - 1;
      assert buffer[i..top][1..] == buffer[i + 1..top];
      out := out + [buffer[i]];
    }
  }

  /** print_dec(value): a 21-character buffer. */
  method PrintDec(value: int) returns (out: seq<char>)
    requires LLONG_MIN < value < LLONG_LIMIT
    ensures out == DecText(value)
  {
    var v := value;
    var sign := false;
    if v < 0 {
      sign := true;
      v := -v;
    }
    if v == 0 {
      return "0";
    }
    assert RadixPow(10, 21) == 1_000_000_000_000_000_000_000 by {
      assert RadixPow(10, 5) == 100_000;
      RadixPowAdd(10, 5, 5);
      RadixPowAdd(10, 10, 10);
      RadixPowAdd(10, 20, 1);
    }
    var digits := EmitDigits(v, 10, 21);
    out := if sign then "-" + digits else digits;
  }

  /** print_hex(value): a 17-character buffer. */
  method PrintHex(value: u64) returns (out: seq<char>)
    ensures out == HexText(value)
  {
    if value == 0 {
      return "0x0";
    }
    assert RadixPow(16, 17) == 0x1_0000_0000_0000_0000_0 by {
      assert RadixPow(16, 4) == 0x1_0000;
      RadixPowAdd(16, 4, 4);
      RadixPowAdd(16, 8, 8);
      RadixPowAdd(16, 16, 1);
    }
    var digits := EmitDigits(value, 16, 17);
    out := "0x" + digits;
  }

  // ---------------------------------------------------------------------
  // printk
  // ---------------------------------------------------------------------

  /** The variadic arguments, by the type va_arg reads them as. */
  datatype Arg =
    | CharArg(c: int)                     // %c: an int, sent as (char)c
    | StrArg(s: Option<seq<char>>)        // %s: a C string or NULL
    | DecArg(d: int)                      // %d: a long long
    | HexArg(x: int)                      // %x, %p: an unsigned long long

  /** What one conversion sends, or None when the argument does not fit it (undefined behaviour). */
  function Conversion(spec: char, a: Arg): Option<seq<char>>
  {
    match a
    case CharArg(c) => if spec == 'c' then Some([Wrap8(c) as char]) else None
    case StrArg(s) =>
      if spec != 's' then None
      else if s.None? then Some("(null)")
      else if '\0' in s.value then Some(Text(s.value))
      else None
    case DecArg(d) => if spec == 'd' && LLONG_MIN < d < LLONG_LIMIT then Some(DecText(d)) else None
    case HexArg(x) => if (spec == 'x' || spec == 'p') && 0 <= x < U64_LIMIT then Some(HexText(x)) else None
  }

  function Then(s: seq<char>, rest: Option<seq<char>>): Option<seq<char>>
  {
    if rest.None? then None else Some(s + rest.value)
  }

  /**
   * The characters printk(fmt, ...) sends for a format (its characters up
   * to the NUL) and the arguments, or None when the call is undefined: a
   * format ending in a lone '%', a missing argument, or one of the wrong
   * kind.
   */
  function Format(fmt: seq<char>, args: seq<Arg>): Option<seq<char>>
  {
    if fmt == [] then Some([])
    else if fmt[0] != '%' then Then([fmt[0]], Format(fmt[1..], args))
    else if |fmt| == 1 then None
    else if fmt[1] == '%' then Then("%", Format(fmt[2..], args))
    else if fmt[1] in "csdxp" then
      if args == [] then None
      else
        var piece := Conversion(fmt[1], args[0]);
        if piece.None? then None else Then(piece.value, Format(fmt[2..], args[1..]))
    else Then(['%', fmt[1]], Format(fmt[2..], args))
  }

  /** A format without conversions is sent verbatim, whatever the arguments. */
  lemma {:induction false} PlainFormat(fmt: seq<char>, args: seq<Arg>)
    requires '%' !in fmt
    ensures Format(fmt, args) == Some(fmt)
  {
    if fmt != [] {
      assert '%' !in fmt[1..] by {
        assert forall k :: 0 <= k < |fmt[1..]| ==> fmt[1..][k] == fmt[k + 1];
      }
      PlainFormat(fmt[1..], args);
      assert fmt == [fmt[0]] + fmt[1..];
    }
  }

  /** "%%" sends one '%', and a conversion printk does not know sends '%' and the character, consuming no argument. */
  lemma PercentAndUnknown(c: char, rest: seq<char>, args: seq<Arg>)
    requires c !in "csdxp"
    ensures Format(['%', c] + rest, args) ==
      Then(if c == '%' then "%" else ['%', c], Format(rest, args))
  {
    assert (['%', c] + rest)[2..] == rest;
  }

  /** A format of n "%d" conversions sends the n numbers' decimal texts one after the other. */
  lemma {:induction false} DecimalList(vs: seq<int>)
    requires forall k :: 0 <= k < |vs| ==> LLONG_MIN < vs[k] < LLONG_LIMIT
    ensures Format(Repeat("%d", |vs|), DecArgs(vs)) == Some(Joined(vs))
  {
    if vs != [] {
      var tail := vs[1..];
      DecimalList(tail);
      var fmt := Repeat("%d", |vs|);
      assert fmt[0] == '%' && fmt[1] == 'd' && fmt[2..] == Repeat("%d", |tail|);
      assert DecArgs(vs)[0] == DecArg(vs[0]) && DecArgs(vs)[1..] == DecArgs(tail);
    }
  }

  function Repeat(s: seq<char>, n: nat): seq<char>
  {
    if n == 0 then [] else s + Repeat(s, n - 1)
  }

  function DecArgs(vs: seq<int>): seq<Arg>
  {
    if vs == [] then [] else [DecArg(vs[0])] + DecArgs(vs[1..])
  }

  function Joined(vs: seq<int>): seq<char>
  {
    if vs == [] then [] else DecText(vs[0]) + Joined(vs[1..])
  }

  /** One conversion: fetches the argument and sends it. */
  method Convert(spec: char, a: Arg) returns (out: seq<char>)
    requires Conversion(spec, a).Some?
    ensures out == Conversion(spec, a).value
  {
    match a
    case CharArg(c) => out := [Wrap8(c) as char];
    case StrArg(s) =>
      if s.None? {
        out := PrintStr("(null)\0");
        assert "(null)\0"[1..] == "null)\0";
      } else {
        out := PrintStr(s.value);
      }
    case DecArg(d) => out := PrintDec(d);
    case HexArg(x) => out := PrintHex(x);
  }

  /**
   * One turn of printk's loop at the front of the remaining format f: sends
   * a plain character, or handles the '%' sequence. Returns what it sent
   * and how many format characters and arguments it consumed.
   */
  method Step(f: seq<char>, a: seq<Arg>) returns (piece: seq<char>, used: nat, taken: nat)
    requires f != [] && Format(f, a).Some?
    ensures 1 <= used <= |f| && taken <= |a|
    ensures Format(f[used..], a[taken..]).Some?
    ensures Format(f, a).value == piece + Format(f[used..], a[taken..]).value
  {
    if f[0] == '%' {
      var c := f[1];
      used := 2;
      if c in "csdxp" {
        piece := Convert(c, a[0]);
        taken := 1;
      } else {
        piece := if c == '%' then "%" else ['%', c];
        taken := 0;
      }
    } else {
      piece, used, taken := [f[0]], 1, 0;
    }
  }

  /** printk(fmt, ...): the format's characters, with each conversion replaced by its text. */
  method PrintK(fmt: seq<char>, args: seq<Arg>) returns (out: seq<char>)
    requires '\0' !in fmt  // fmt holds the format's characters before its NUL
    requires Format(fmt, args).Some?
    ensures out == Format(fmt, args).value
  {
    out := [];
    var i, j := 0, 0;
    while i < |fmt|
      invariant i <= |fmt| && j <= |args|
      invariant Format(fmt[i..], args[j..]).Some?
      invariant Format(fmt, args).value == out + Format(fmt[i..], args[j..]).value
      decreases |fmt| - i
    {
      var piece, used, taken := Step(fmt[i..], args[j..]);
      assert fmt[i..][used..] == fmt[i + used..];
      assert args[j..][taken..] == args[j + taken..];
      out := out + piece;
      i, j := i + used, j + taken;
    }
    assert fmt[i..] == [];
  }
}
