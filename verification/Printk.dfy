// The bounded formatter of the BIOS (bios/printk.c) against an unbounded rendering. A C string is
// the sequence of its characters before the NUL; int, unsigned and pointers have 16 bits.
module Printk {
  import opened Words

  type CString = s: string | '\0' !in s

  datatype Arg = Num(v: word) | Str(s: CString)

  // ---- The rendering ----

  function DigitChar(d: nat): (c: char)
    requires d < 16
  {
    ['0', '1', '2', '3', '4', '5', '6', '7', '8', '9', 'a', 'b', 'c', 'd', 'e', 'f'][d]
  }

  lemma Quotient(v: nat, base: nat)
    requires base >= 2
    ensures 0 <= v / base <= v && 0 <= v % base < base
    ensures v > 0 ==> v / base < v
    ensures v < base ==> v / base == 0 && v % base == v
    ensures v >= base ==> v / base > 0
  {
    if v < base {
      DivModUnique(v, base, 0, v);
    } else {
      DivModDef(v, base);
      if v / base <= 0 { MulLe(v / base, 0, base); }
      MulLe(2, base, v / base);
    }
  }

  // The digits of v, the most significant first.
  function Digits(v: nat, base: nat): (r: seq<nat>)
    requires base >= 2
    ensures r != [] && forall i :: 0 <= i < |r| ==> r[i] < base
  {
    Quotient(v, base);
    if v < base then [v] else Digits(v / base, base) + [v % base]
  }

  function Zeros(n: int): string {
    if n <= 0 then "" else Zeros(n - 1) + "0"
  }

  function Chars(ds: seq<nat>): (s: string)
    requires forall i :: 0 <= i < |ds| ==> ds[i] < 16
    ensures |s| == |ds|
  {
    seq(|ds|, i requires 0 <= i < |ds| => DigitChar(ds[i]))
  }

  function Padding(ds: nat, zeroPad: bool, precision: nat): string {
    if zeroPad then Zeros(precision - ds) else ""
  }

  function Numeral(v: word, base: nat, zeroPad: bool, precision: nat): string
    requires 2 <= base <= 16
  {
    Padding(|Digits(v, base)|, zeroPad, precision) + Chars(Digits(v, base))
  }

  function Pointer(v: word): string {
    if v == 0 then "(null)" else "0x" + Numeral(v, 16, true, 4)
  }

  predicate ArgFits(conversion: char, arg: Arg) {
    conversion == 's' <==> arg.Str?
  }

  // A conversion that is not s, u, x or p, even "%%", prints its argument as a character.
  function Item(conversion: char, zeroPad: bool, precision: nat, arg: Arg): string
    requires ArgFits(conversion, arg)
  {
    match conversion
    case 's' => arg.s
    case 'u' => Numeral(arg.v, 10, zeroPad, precision)
    case 'x' => Numeral(arg.v, 16, zeroPad, precision)
    case 'p' => Pointer(arg.v)
    case _ => [(arg.v % 0x100) as char]
  }

  predicate IsDigit(f: string) {
    f != "" && '0' <= f[0] <= '9'
  }

  function AfterZero(f: string): string {
    if f != "" && f[0] == '0' then f[1..] else f
  }

  // The decimal number at the start of f, appended to acc, and what follows it.
  function Precision(f: string, acc: nat): (r: (nat, string))
    ensures |r.1| <= |f| && r.0 >= acc
  {
    if IsDigit(f) then Precision(f[1..], acc * 10 + (f[0] as int - '0' as int)) else (acc, f)
  }

  // Every conversion is complete and has an argument of its kind, and no precision overflows.
  predicate WellFormed(f: string, args: seq<Arg>)
    decreases |f|
  {
    if f == "" then true
    else if f[0] != '%' then WellFormed(f[1..], args)
    else
      var (precision, rest) := Precision(AfterZero(f[1..]), 0);
      && precision <= 0x7fff && rest != "" && args != [] && ArgFits(rest[0], args[0])
      && WellFormed(rest[1..], args[1..])
  }

  function Full(f: string, args: seq<Arg>): string
    requires WellFormed(f, args)
    decreases |f|
  {
    if f == "" then ""
    else if f[0] != '%' then [f[0]] + Full(f[1..], args)
    else
      var (precision, rest) := Precision(AfterZero(f[1..]), 0);
      Item(rest[0], f[1..] != "" && f[1] == '0', precision, args[0]) + Full(rest[1..], args[1..])
  }

  function Min(a: int, b: int): int {
    if a < b then a else b
  }

  // The room left behind n more characters.
  function Left(room: nat, n: nat): nat {
    if n >= room then 0 else room - n
  }

  // The same demands on the part of the format that is read before room characters are out.
  predicate ReadableFor(f: string, args: seq<Arg>, room: nat)
    decreases |f|
  {
    if room == 0 || f == "" then true
    else if f[0] != '%' then ReadableFor(f[1..], args, room - 1)
    else
      var (precision, rest) := Precision(AfterZero(f[1..]), 0);
      && precision <= 0x7fff && rest != "" && args != [] && ArgFits(rest[0], args[0])
      && var item := Item(rest[0], f[1..] != "" && f[1] == '0', precision, args[0]);
         ReadableFor(rest[1..], args[1..], Left(room, |item|))
  }

  // The rendering of that part.
  function Shown(f: string, args: seq<Arg>, room: nat): string
    requires ReadableFor(f, args, room)
    decreases |f|
  {
    if room == 0 || f == "" then ""
    else if f[0] != '%' then [f[0]] + Shown(f[1..], args, room - 1)
    else
      var (precision, rest) := Precision(AfterZero(f[1..]), 0);
      var item := Item(rest[0], f[1..] != "" && f[1] == '0', precision, args[0]);
      item + Shown(rest[1..], args[1..], Left(room, |item|))
  }

  // The last of the first m digits is the next one the loop takes.
  lemma NextDigit(ds: seq<nat>, m: nat, v: nat, base: nat)
    requires base >= 2 && m <= |ds| && ds[..m] == Digits(v, base)
    ensures m > 0 && 0 <= ds[m - 1] == v % base < base && 0 <= v / base && (v > 0 ==> v / base < v)
    ensures if v / base == 0 then m == 1 else m > 1 && ds[..m - 1] == Digits(v / base, base)
  {
    Quotient(v, base);
    assert m > 0 ==> ds[..m][..m - 1] == ds[..m - 1] && ds[..m][m - 1] == ds[m - 1];
  }

  lemma HalfAtMost(v: nat, base: nat)
    requires base >= 2
    ensures v / base <= v / 2
  {
    Quotient(v, base);
    DivModDef(v, base);
    MulLe(2, base, v / base);
  }

  // At least one bit per digit, so 32 places are enough for 16 bits.
  lemma AtMostBits(v: nat, base: nat, n: nat)
    requires base >= 2 && n >= 1 && v < Pow2(n)
    ensures |Digits(v, base)| <= n
  {
    if v >= base {
      HalfAtMost(v, base);
      AtMostBits(v / base, base, n - 1);
    }
  }

  lemma SixteenDigits(v: word, base: nat)
    requires base >= 2
    ensures |Digits(v, base)| <= 16
  {
    Pow2Of16();
    AtMostBits(v, base, 16);
  }

  // ---- The formatter ----

  // The loop at the start of output_unsigned: the digits, the least significant first.
  method ReverseDigits(v: word, base: nat, reversalBuf: array<nat>) returns (nchars: nat)
    requires 2 <= base <= 16 && reversalBuf.Length == 32
    modifies reversalBuf
    ensures nchars == |Digits(v, base)| <= 32
    ensures forall k :: 0 <= k < nchars ==>
              reversalBuf[k] == Digits(v, base)[nchars - 1 - k] && reversalBuf[k] < 16
  {
    hide Digits, Pow2;
    var val: nat := v;
    nchars := 0;
    ghost var ds := Digits(v, base);
    SixteenDigits(v, base);
    while true
      invariant nchars < |ds| <= 16 && ds[..|ds| - nchars] == Digits(val, base)
      invariant forall k :: 0 <= k < nchars ==> reversalBuf[k] == ds[|ds| - 1 - k]
      decreases val
    {
      NextDigit(ds, |ds| - nchars, val, base);
      reversalBuf[nchars] := val % base;
      nchars := nchars + 1;
      val := val / base;
      if val == 0 { break; }
    }
  }

  lemma ReversedChars(before: string, out: string, ds: seq<nat>, reversed: seq<nat>)
    requires |reversed| == |ds| && before <= out && |out| == |before| + |ds|
    requires forall k :: 0 <= k < |ds| ==> ds[k] < 16 && reversed[k] == ds[|ds| - 1 - k]
    requires forall k :: 0 <= k < |ds| ==> reversed[k] < 16 && out[|out| - 1 - k] == DigitChar(reversed[k])
    ensures out == before + Chars(ds)
  {
    forall i | 0 <= i < |ds| ensures out[|before| + i] == DigitChar(ds[i]) {
      assert out[|out| - 1 - (|ds| - 1 - i)] == DigitChar(reversed[|ds| - 1 - i]);
    }
  }

  class Formatter {
    const buf: array<char>
    const maxlen: nat
    const fmt: string
    var len: nat
    var at: nat
    var precision: nat
    var zeroPad: bool
    // All characters output so far, and what the buffer held at first.
    ghost var out: string
    ghost const was: seq<char>

    // The buffer holds the first maxlen - 1 characters of the output, and is otherwise as it was.
    ghost predicate Valid()
      reads this, buf
    {
      && 1 <= maxlen <= buf.Length == |was| && at <= |fmt|
      && len == Min(|out|, maxlen - 1)
      && buf[..len] == out[..len] && buf[len..] == was[len..]
    }

    // The characters that still fit before the NUL.
    function Room(): nat
      requires 1 <= maxlen && len <= maxlen - 1
      reads this
    {
      maxlen - 1 - len
    }

    function Rest(): string
      requires at <= |fmt|
      reads this
    {
      fmt[at..]
    }

    constructor (buf: array<char>, maxlen: nat, fmt: string)
      requires 1 <= maxlen <= buf.Length
      ensures Valid() && this.buf == buf && this.maxlen == maxlen && this.fmt == fmt && was == buf[..]
      ensures out == "" && at == 0
    {
      this.buf, this.maxlen, this.fmt := buf, maxlen, fmt;
      len, at, precision, zeroPad := 0, 0, 0, false;
      out, was := "", buf[..];
    }

    method OutputChar(c: char)
      requires Valid()
      modifies this`len, this`out, buf
      ensures Valid() && out == old(out) + [c]
    {
      out := out + [c];
      if len < maxlen - 1 {
        buf[len] := c;
        len := len + 1;
      }
    }

    method OutputBufReversed(digits: array<nat>, nchars: nat)
      requires Valid() && nchars <= digits.Length && (digits as object) != (buf as object)
      requires forall k :: 0 <= k < nchars ==> digits[k] < 16
      modifies this`len, this`out, buf
      ensures Valid() && |out| == |old(out)| + nchars
      ensures forall k :: 0 <= k < nchars ==> out[|out| - 1 - k] == DigitChar(digits[k])
      ensures old(out) <= out
    {
      var n := nchars;
      while n > 0
        invariant 0 <= n <= nchars && Valid() && |out| == |old(out)| + nchars - n && old(out) <= out
        invariant digits[..] == old(digits[..]) && forall k :: 0 <= k < nchars ==> digits[k] < 16
        invariant forall k :: n <= k < nchars ==> out[|old(out)| + nchars - 1 - k] == DigitChar(digits[k])
      {
        n := n - 1;
        OutputChar(DigitChar(digits[n]));
      }
    }

    method OutputZeroPadding(zeroes: int)
      requires Valid()
      modifies this`len, this`out, buf
      ensures Valid() && out == old(out) + (if zeroPad then Zeros(zeroes) else "")
    {
      if zeroPad && zeroes > 0 {
        for i := 0 to zeroes
          invariant Valid() && out == old(out) + Zeros(i)
        {
          OutputChar('0');
        }
      }
    }

    method OutputUnsigned(v: word, base: nat)
      requires Valid() && 2 <= base <= 16
      modifies this`len, this`out, buf
      ensures Valid() && out == old(out) + Numeral(v, base, zeroPad, precision)
    {
      hide Digits, Chars, Zeros, DigitChar;
      var reversalBuf := new nat[32];
      var nchars := ReverseDigits(v, base, reversalBuf);
      OutputZeroPadding(precision - nchars);
      ghost var before := out;
      OutputBufReversed(reversalBuf, nchars);
      ReversedChars(before, out, Digits(v, base), reversalBuf[..nchars]);
    }

    method OutputString(s: string)
      requires Valid()
      modifies this`len, this`out, buf
      ensures Valid() && out == old(out) + s
    {
      for i := 0 to |s|
        invariant Valid() && out == old(out) + s[..i]
      {
        OutputChar(s[i]);
      }
    }

    method OutputPointer(v: word)
      requires Valid()
      modifies this`len, this`out, this`precision, this`zeroPad, buf
      ensures Valid() && out == old(out) + Pointer(v)
    {
      hide Numeral;
      precision := 4;
      zeroPad := true;
      if v == 0 {
        OutputString("(null)");
      } else {
        OutputString("0x");
        OutputUnsigned(v, 16);
      }
    }

    method OutputItem(arg: Arg)
      requires Valid() && at < |fmt| && ArgFits(fmt[at], arg)
      modifies this`len, this`out, this`at, this`precision, this`zeroPad, buf
      ensures Valid() && at == old(at) + 1
      ensures out == old(out) + Item(fmt[old(at)], old(zeroPad), old(precision), arg)
    {
      match fmt[at] {
        case 's' => OutputString(arg.s);
        case 'u' => OutputUnsigned(arg.v, 10);
        case 'x' => OutputUnsigned(arg.v, 16);
        case 'p' => OutputPointer(arg.v);
        case _ => OutputChar((arg.v % 0x100) as char);
      }
      at := at + 1;
    }

    method ReadPrecision()
      requires Valid()
      modifies this`at, this`precision
      ensures Valid() && old(at) <= at && (precision, Rest()) == Precision(old(Rest()), 0)
    {
      precision := 0;
      while at < |fmt| && '0' <= fmt[at] <= '9'
        invariant old(at) <= at && Valid() && Precision(Rest(), precision) == Precision(old(Rest()), 0)
        decreases |fmt| - at
      {
        assert Rest()[1..] == fmt[at + 1..];
        precision := precision * 10;
        precision := precision + (fmt[at] as int - '0' as int);
        at := at + 1;
      }
    }

    method ReadZeroPad()
      requires Valid()
      modifies this`at, this`zeroPad
      ensures Valid() && old(at) <= at && Rest() == AfterZero(old(Rest()))
      ensures zeroPad == (old(Rest()) != "" && old(Rest())[0] == '0')
    {
      zeroPad := false;
      if at < |fmt| && fmt[at] == '0' {
        zeroPad := true;
        at := at + 1;
      }
    }

    // The NUL behind the last character.
    method Terminate() returns (n: nat)
      requires Valid()
      modifies buf
      ensures n == Min(|out|, maxlen - 1) && buf[..n] == out[..n] && buf[n] == '\0' && buf[n + 1..] == was[n + 1..]
    {
      buf[len] := '\0';
      n := len;
    }

    method ParseSpecifier()
      requires Valid() && at < |fmt|
      modifies this`at, this`precision, this`zeroPad
      ensures Valid() && at > old(at)
      ensures (precision, Rest()) == Precision(AfterZero(old(Rest()[1..])), 0)
      ensures zeroPad == (old(Rest()[1..]) != "" && old(Rest())[1] == '0')
    {
      at := at + 1;
      assert Rest() == old(Rest()[1..]);
      ReadZeroPad();
      ReadPrecision();
    }
  }

  // The start of a format that is read: a conversion with its argument, or a plain character.
  lemma RestStep(f: string, args: seq<Arg>, room: nat)
    requires ReadableFor(f, args, room) && f != "" && room > 0
    ensures f[0] != '%' ==>
              && ReadableFor(f[1..], args, room - 1)
              && Shown(f, args, room) == [f[0]] + Shown(f[1..], args, room - 1)
    ensures f[0] == '%' ==>
              var (precision, rest) := Precision(AfterZero(f[1..]), 0);
              && rest != "" && args != [] && ArgFits(rest[0], args[0])
              && var item := Item(rest[0], f[1..] != "" && f[1] == '0', precision, args[0]);
                 && ReadableFor(rest[1..], args[1..], Left(room, |item|))
                 && Shown(f, args, room) == item + Shown(rest[1..], args[1..], Left(room, |item|))
  {
  }

  lemma Regroup(full: string, before: string, after: string, rest: string)
    requires before <= after && full == before + (after[|before|..] + rest)
    ensures full == after + rest
  {
    assert after == before + after[|before|..];
  }

  lemma RestEnds(f: string, args: seq<Arg>, room: nat)
    requires room == 0 || f == ""
    ensures ReadableFor(f, args, room) && Shown(f, args, room) == ""
  {
  }

  // What is shown of a well-formed format is the start of its full rendering.
  lemma {:induction false} ShownOfFull(f: string, args: seq<Arg>, room: nat)
    requires WellFormed(f, args)
    ensures ReadableFor(f, args, room)
    ensures var shown, full := Shown(f, args, room), Full(f, args);
            shown <= full && Min(|shown|, room) == Min(|full|, room)
    decreases |f|
  {
    hide Item, Precision;
    if room > 0 && f != "" {
      if f[0] != '%' {
        ShownOfFull(f[1..], args, room - 1);
      } else {
        var (precision, rest) := Precision(AfterZero(f[1..]), 0);
        var item := Item(rest[0], f[1..] != "" && f[1] == '0', precision, args[0]);
        ShownOfFull(rest[1..], args[1..], Left(room, |item|));
      }
    }
  }

  // One pass of string_format's loop: a conversion with the next argument, or a plain character.
  method FormatNext(f: Formatter, args: seq<Arg>, ap: nat) returns (ap': nat)
    requires f.Valid() && f.len < f.maxlen - 1 && f.at < |f.fmt|
    requires ap <= |args| && ReadableFor(f.Rest(), args[ap..], f.Room())
    modifies f`len, f`out, f`at, f`precision, f`zeroPad, f.buf
    ensures f.Valid() && f.at > old(f.at) && ap' <= |args| && old(f.out) <= f.out
    ensures ReadableFor(f.Rest(), args[ap'..], f.Room())
    ensures Shown(old(f.Rest()), args[ap..], old(f.Room()))
         == f.out[|old(f.out)|..] + Shown(f.Rest(), args[ap'..], f.Room())
  {
    hide Shown, ReadableFor, Item, Precision, AfterZero;
    ghost var rest := f.Rest();
    RestStep(rest, args[ap..], f.Room());
    if f.fmt[f.at] == '%' {
      f.ParseSpecifier();
      f.OutputItem(args[ap]);
      ap' := ap + 1;
      assert args[ap'..] == args[ap..][1..];
    } else {
      f.OutputChar(f.fmt[f.at]);
      f.at := f.at + 1;
      ap' := ap;
      assert f.Rest() == rest[1..];
    }
  }

  // The buffer gets the first maxlen - 1 characters of the rendering and a NUL; what lies behind
  // the NUL is not touched. Only the part of the format that fills the buffer has to be sound.
  method StringFormat(buf: array<char>, maxlen: nat, fmt: CString, args: seq<Arg>) returns (n: nat)
    requires 1 <= maxlen <= buf.Length && ReadableFor(fmt, args, maxlen - 1)
    modifies buf
    ensures n == Min(|Shown(fmt, args, maxlen - 1)|, maxlen - 1)
    ensures buf[..n] == Shown(fmt, args, maxlen - 1)[..n] && buf[n] == '\0'
    ensures WellFormed(fmt, args) ==> n == Min(|Full(fmt, args)|, maxlen - 1) && buf[..n] == Full(fmt, args)[..n]
    ensures buf[n + 1..] == old(buf[n + 1..])
  {
    hide Shown, ReadableFor, Full, WellFormed;
    var f := new Formatter(buf, maxlen, fmt);
    var ap := 0;
    assert f.Rest() == fmt && args[0..] == args;
    while f.len < maxlen - 1 && f.at < |fmt|
      invariant f.Valid() && f.buf == buf && f.maxlen == maxlen && f.fmt == fmt && f.was == old(buf[..])
      invariant ap <= |args| && ReadableFor(f.Rest(), args[ap..], f.Room())
      invariant Shown(fmt, args, maxlen - 1) == f.out + Shown(f.Rest(), args[ap..], f.Room())
      decreases |fmt| - f.at
    {
      ghost var before := f.out;
      ap := FormatNext(f, args, ap);
      Regroup(Shown(fmt, args, maxlen - 1), before, f.out, Shown(f.Rest(), args[ap..], f.Room()));
    }
    RestEnds(f.Rest(), args[ap..], f.Room());
    assert f.out == Shown(fmt, args, maxlen - 1);
    if WellFormed(fmt, args) { ShownOfFull(fmt, args, maxlen - 1); }
    n := f.Terminate();
  }

  // "%%" prints its argument, which is a percent sign only if the argument is one.
  lemma PercentPrints(zeroPad: bool, precision: nat, arg: Arg)
    requires ArgFits('%', arg)
    ensures Item('%', zeroPad, precision, arg) == "%" <==> arg.v % 0x100 == 0x25
  {
    if Item('%', zeroPad, precision, arg) == "%" {
      assert ((arg.v % 0x100) as char) == '%';
    }
  }

  // Without an argument "%%" is not well formed; with the argument 65 it prints "A".
  lemma PercentPercent()
    ensures !WellFormed("%%", []) && WellFormed("%%", [Num(65)]) && Full("%%", [Num(65)]) == "A"
  {
    assert "%%"[1..] == "%" && Precision("%", 0) == (0, "%") && "%"[1..] == "";
    var none: seq<Arg> := [];
    assert [Num(65)][1..] == none && Full("", none) == "";
    assert Full("%%", [Num(65)]) == "A" + "";
  }

  // ---- Digits ----

  function DigitOf(c: char): nat {
    if '0' <= c <= '9' then c as int - '0' as int else if 'a' <= c <= 'f' then c as int - 'a' as int + 10 else 0
  }

  // The value of a numeral in the given base.
  function Read(s: string, base: nat): nat {
    if s == "" then 0 else Read(s[..|s| - 1], base) * base + DigitOf(s[|s| - 1])
  }

  lemma DigitBack(d: nat)
    requires d < 16
    ensures DigitOf(DigitChar(d)) == d
  {
    assert 0 <= d < 10 ==> DigitChar(d) as int == '0' as int + d;
    assert 10 <= d < 16 ==> DigitChar(d) as int == 'a' as int + d - 10;
  }

  lemma ReadAppend(s: string, d: nat, base: nat)
    requires d < 16
    ensures Read(s + [DigitChar(d)], base) == Read(s, base) * base + d
  {
    hide DigitOf, DigitChar;
    assert (s + [DigitChar(d)])[..|s|] == s;
    DigitBack(d);
  }

  lemma CharsAppend(ds: seq<nat>, d: nat)
    requires d < 16 && forall i :: 0 <= i < |ds| ==> ds[i] < 16
    ensures Chars(ds + [d]) == Chars(ds) + [DigitChar(d)]
  {
  }

  lemma OneDigit(d: nat, base: nat)
    requires d < 16
    ensures Read(Chars([d]), base) == d
  {
    hide DigitOf, DigitChar;
    assert Chars([d]) == "" + [DigitChar(d)];
    ReadAppend("", d, base);
    assert 0 * base == 0;
  }

  lemma {:induction false} DigitsRead(v: nat, base: nat)
    requires 2 <= base <= 16
    ensures Read(Chars(Digits(v, base)), base) == v
  {
    hide Chars, DigitChar, DigitOf, Read;
    Quotient(v, base);
    DivModDef(v, base);
    if v < base {
      OneDigit(v, base);
    } else {
      var ds := Digits(v / base, base);
      CharsAppend(ds, v % base);
      DigitsRead(v / base, base);
      ReadAppend(Chars(ds), v % base, base);
    }
  }

  lemma {:induction false} ZerosRead(n: int, s: string, base: nat)
    ensures Read(Zeros(n) + s, base) == Read(s, base) && |Zeros(n) + s| == |s| + (if n > 0 then n else 0)
    decreases |s|, n
  {
    var z := Zeros(n) + s;
    if s != "" {
      ZerosRead(n, s[..|s| - 1], base);
      assert z[..|z| - 1] == Zeros(n) + s[..|s| - 1];
    } else if n > 0 {
      ZerosRead(n - 1, "", base);
      assert z == Zeros(n - 1) + "" + "0";
      assert z[..|z| - 1] == Zeros(n - 1) + "";
    }
  }

  lemma PaddedReads(padding: string, n: int, s: string, base: nat)
    requires padding == Zeros(n)
    ensures Read(padding + s, base) == Read(s, base) && |padding| == if n > 0 then n else 0
    ensures n <= 0 ==> padding + s == s
  {
    ZerosRead(n, s, base);
  }

  lemma {:induction false} LeadingDigit(v: nat, base: nat)
    requires base >= 2
    ensures if v > 0 then Digits(v, base)[0] > 0 else |Digits(v, base)| == 1
  {
    if v >= base {
      Quotient(v, base);
      LeadingDigit(v / base, base);
    }
  }

  // The numeral of v in a base with at least the given number of places, and no leading zero beyond them.
  ghost predicate IsNumeral(s: string, v: nat, base: nat, places: nat)
    requires base <= 16
  {
    && Read(s, base) == v
    && |s| >= places && (|s| > places ==> s[0] != '0')
    && forall i :: 0 <= i < |s| ==> s[i] in "0123456789abcdef"[..base]
  }

  lemma DigitCharIn(d: nat, base: nat)
    requires d < base <= 16
    ensures DigitChar(d) in "0123456789abcdef"[..base] && (DigitChar(d) == '0' <==> d == 0)
  {
    assert "0123456789abcdef"[..base][d] == DigitChar(d);
  }

  lemma {:induction false} ZerosOnly(n: int)
    ensures |Zeros(n)| == if n > 0 then n else 0
    ensures forall i :: 0 <= i < |Zeros(n)| ==> Zeros(n)[i] == '0'
  {
    if n > 0 { ZerosOnly(n - 1); }
  }

  // A rendered number reads back as its value, in digits of its base, with the places that the
  // precision asks for and no more than it needs.
  lemma NumeralReads(v: word, base: nat, zeroPad: bool, precision: nat)
    requires 2 <= base <= 16
    ensures IsNumeral(Numeral(v, base, zeroPad, precision), v, base, if zeroPad && precision > 1 then precision else 1)
  {
    hide Read, Digits, DigitChar;
    var ds := Digits(v, base);
    var zeros := if zeroPad then precision - |ds| else 0;
    DigitsRead(v, base);
    LeadingDigit(v, base);
    ZerosOnly(zeros);
    PaddedReads(Padding(|ds|, zeroPad, precision), zeros, Chars(ds), base);
    forall i | 0 <= i < |ds| ensures Chars(ds)[i] in "0123456789abcdef"[..base] && (Chars(ds)[i] == '0' <==> ds[i] == 0) {
      DigitCharIn(ds[i], base);
    }
    assert '0' == "0123456789abcdef"[..base][0];
  }

  // ---- What each conversion prints ----

  predicate AllDigits(s: string) {
    forall i :: 0 <= i < |s| ==> '0' <= s[i] <= '9'
  }

  // The precision is the decimal number that the digits spell.
  lemma {:induction false} PrecisionReads(done: string, width: string, rest: string)
    requires AllDigits(width) && !IsDigit(rest)
    ensures Precision(width + rest, Read(done, 10)) == (Read(done + width, 10), rest)
    decreases |width|
  {
    if width == "" {
      assert width + rest == rest && done + width == done;
    } else {
      var next := done + [width[0]];
      assert next[..|done|] == done;
      assert (width + rest)[1..] == width[1..] + rest && next + width[1..] == done + width;
      PrecisionReads(next, width[1..], rest);
    }
  }

  // A format that starts with a conversion: its digits, of which a leading 0 asks for padding.
  function Conversion(zeroPad: bool, width: string, c: char, f: string): string {
    "%" + (if zeroPad then "0" else "") + width + [c] + f
  }

  lemma ReadNothing(base: nat)
    ensures Read("", base) == 0
  {
  }

  lemma ConversionFull(zeroPad: bool, width: string, c: char, f: string, arg: Arg, args: seq<Arg>)
    requires AllDigits(width) && (width != "" ==> width[0] != '0') && Read(width, 10) <= 0x7fff
    requires !('0' <= c <= '9') && ArgFits(c, arg) && WellFormed(f, args)
    ensures WellFormed(Conversion(zeroPad, width, c, f), [arg] + args)
    ensures Full(Conversion(zeroPad, width, c, f), [arg] + args)
         == Item(c, zeroPad, Read(width, 10), arg) + Full(f, args)
  {
    hide Read, Item, Precision;
    var fmt := Conversion(zeroPad, width, c, f);
    var body := width + ([c] + f);
    assert fmt[1..] == if zeroPad then "0" + body else body;
    assert body[0] == if width == "" then c else width[0];
    assert AfterZero(fmt[1..]) == body;
    PrecisionReads("", width, [c] + f);
    ReadNothing(10);
    assert "" + width == width;
    assert Precision(body, 0) == (Read(width, 10), [c] + f);
    assert ([c] + f)[1..] == f && ([arg] + args)[1..] == args;
  }

  lemma {:induction false} PlacesBound(v: nat, base: nat, n: nat, bound: nat)
    requires base >= 2 && v < bound * base
    requires n > 0 ==> bound > 0 && forall x: nat :: x < bound ==> |Digits(x, base)| <= n
    requires n == 0 ==> bound == 1
    ensures |Digits(v, base)| <= n + 1
  {
    Quotient(v, base);
    DivModDef(v, base);
    if v >= base && v / base >= bound { MulLe(bound, v / base, base); }
  }

  lemma FourHexDigits(v: word)
    ensures |Digits(v, 16)| <= 4
  {
    forall x: nat | x < 0x10 ensures |Digits(x, 16)| <= 1 {
      PlacesBound(x, 16, 0, 1);
    }
    forall x: nat | x < 0x100 ensures |Digits(x, 16)| <= 2 {
      PlacesBound(x, 16, 1, 0x10);
    }
    forall x: nat | x < 0x1000 ensures |Digits(x, 16)| <= 3 {
      PlacesBound(x, 16, 2, 0x100);
    }
    PlacesBound(v, 16, 3, 0x1000);
  }

  // A precision without a leading zero is at least 1 unless it is left out.
  lemma PlacesAsked(width: string)
    requires AllDigits(width) && (width != "" ==> width[0] != '0')
    ensures if width == "" then Read(width, 10) == 0 else Read(width, 10) >= 1
    decreases |width|
  {
    if |width| > 1 { PlacesAsked(width[..|width| - 1]); }
  }

  lemma FourPlaces(v: word)
    ensures |Numeral(v, 16, true, 4)| == 4
  {
    FourHexDigits(v);
    ZerosOnly(4 - |Digits(v, 16)|);
  }

  // u prints the decimal numeral of its argument, x the hexadecimal one, p 0x and four
  // hexadecimal digits or (null), s the string, and every other conversion the character of the
  // low byte; what follows is rendered with the other arguments.
  lemma ConversionPrints(zeroPad: bool, width: string, c: char, f: string, arg: Arg, args: seq<Arg>)
    returns (item: string)
    requires AllDigits(width) && (width != "" ==> width[0] != '0') && Read(width, 10) <= 0x7fff
    requires !('0' <= c <= '9') && ArgFits(c, arg) && WellFormed(f, args)
    ensures var fmt := "%" + (if zeroPad then "0" else "") + width + [c] + f;
            WellFormed(fmt, [arg] + args) && Full(fmt, [arg] + args) == item + Full(f, args)
    ensures var places := if zeroPad && width != "" then Read(width, 10) else 1;
            && (c == 'u' ==> IsNumeral(item, arg.v, 10, places))
            && (c == 'x' ==> IsNumeral(item, arg.v, 16, places))
    ensures c == 's' ==> item == arg.s
    ensures c == 'p' ==> if arg.v == 0 then item == "(null)"
                         else |item| == 6 && item[..2] == "0x" && IsNumeral(item[2..], arg.v, 16, 4)
    ensures c !in "usxp" ==> |item| == 1 && item[0] as int == arg.v % 0x100
  {
    hide Full, WellFormed, IsNumeral, Numeral, Read;
    var precision := Read(width, 10);
    item := Item(c, zeroPad, precision, arg);
    ConversionFull(zeroPad, width, c, f, arg, args);
    PlacesAsked(width);
    if c != 's' {
      NumeralReads(arg.v, 10, zeroPad, precision);
      NumeralReads(arg.v, 16, zeroPad, precision);
      NumeralReads(arg.v, 16, true, 4);
      FourPlaces(arg.v);
    }
    if c == 'p' && arg.v != 0 {
      assert item[2..] == Numeral(arg.v, 16, true, 4);
    }
  }

  lemma PlainPrints(c: char, f: string, args: seq<Arg>)
    requires c != '%' && WellFormed(f, args)
    ensures WellFormed([c] + f, args) && Full([c] + f, args) == [c] + Full(f, args)
  {
    assert ([c] + f)[1..] == f;
  }

  lemma SampleDigits()
    ensures Digits(10, 10) == [1, 0] && Digits(0xfc, 16) == [15, 12]
  {
    assert Digits(1, 10) == [1] && Digits(15, 16) == [15];
  }

  lemma SampleChars()
    ensures Chars([1, 0]) == "10" && Chars([15, 12]) == "fc" && Zeros(0) == "" && Zeros(2) == "00"
  {
    assert Zeros(1) == "0";
  }

  lemma SampleReads()
    ensures Read("", 10) == 0 && Read("2", 10) == 2 && Read("4", 10) == 4
  {
    assert "2"[..0] == "" && "4"[..0] == "";
  }

  lemma EndOfFormat()
    ensures WellFormed("", []) && Full("", []) == ""
  {
  }

  // What the mouse driver prints, and a wider form of it.
  lemma SampleFormats()
    ensures WellFormed("%u", [Num(10)]) && Full("%u", [Num(10)]) == "10"
    ensures WellFormed("%02x", [Num(0xfc)]) && Full("%02x", [Num(0xfc)]) == "fc"
    ensures WellFormed("%04x", [Num(0xfc)]) && Full("%04x", [Num(0xfc)]) == "00fc"
  {
    hide Digits, Chars, Zeros, Read, Full, WellFormed;
    SampleDigits();
    SampleChars();
    SampleReads();
    EndOfFormat();
    ConversionFull(false, "", 'u', "", Num(10), []);
    ConversionFull(true, "2", 'x', "", Num(0xfc), []);
    ConversionFull(true, "4", 'x', "", Num(0xfc), []);
    assert Conversion(false, "", 'u', "") == "%u";
    assert Conversion(true, "2", 'x', "") == "%02x" && Conversion(true, "4", 'x', "") == "%04x";
    var none: seq<Arg> := [];
    assert [Num(10)] + none == [Num(10)] && [Num(0xfc)] + none == [Num(0xfc)];
  }
}
