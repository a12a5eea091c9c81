/** `core/kprintf.c`: the formatter, which appends to a static buffer and prints it. */
module Kprintf {
  import opened Bits
  import opened Vga

  // ---- numbers -------------------------------------------------------------------------------

  function Quotient(x: nat, p: nat): nat
    requires p >= 1
  {
    x / p
  }

  /** A number in a base, most significant digit first, as characters from '0' upwards. */
  function Digits(value: nat, base: nat): (r: seq<nat>)
    requires base >= 2
    ensures |r| >= 1
  {
    if value < base then [value + 0x30]
    else
      QuotientPositive(value, base);
      Digits(Quotient(value, base), base) + [value % base + 0x30]
  }

  function Decode(s: seq<nat>, base: nat): int
  {
    if s == [] then 0 else Decode(s[..|s| - 1], base) * base + (s[|s| - 1] as int - 0x30)
  }

  /** Reading the digits back gives the number. */
  lemma {:induction false} DecodeDigits(value: nat, base: nat)
    requires base >= 2
    ensures Decode(Digits(value, base), base) == value
  {
    var d := Digits(value, base);
    if value < base {
      assert d[..0] == [];
    } else {
      DecodeDigits(value / base, base);
      assert d[..|d| - 1] == Digits(value / base, base);
    }
  }

  /** Every character is a digit of the base, and there is no leading zero. */
  lemma {:induction false} DigitsCanonical(value: nat, base: nat)
    requires base >= 2
    ensures forall i :: 0 <= i < |Digits(value, base)| ==> 0x30 <= Digits(value, base)[i] < 0x30 + base
    ensures value > 0 ==> Digits(value, base)[0] != 0x30
    ensures value == 0 ==> Digits(value, base) == [0x30]
  {
    if value >= base {
      QuotientPositive(value, base);
      DigitsCanonical(value / base, base);
    }
  }

  lemma QuotientPositive(value: nat, base: nat)
    requires base >= 2 && value >= base
    ensures 0 < value / base < value
  {
    var q := value / base;
    assert value == q * base + value % base;
    assert q * base >= 2 * q;
  }

  lemma DigitsStep(value: nat, base: nat)
    requires base >= 2
    ensures value < base ==> Digits(value, base) == [value % base + 0x30]
    ensures value >= base ==> Digits(value, base) == Digits(value / base, base) + [value % base + 0x30]
    ensures value >= base ==> value / base < value
    ensures 0 <= value % base < base
  {
    if value >= base { QuotientPositive(value, base); } else { SmallMod(value, base); }
  }

  predicate IsNumeral(s: seq<nat>, base: nat)
  {
    && |s| >= 1 && (forall i :: 0 <= i < |s| ==> 0x30 <= s[i] < 0x30 + base)
    && (|s| > 1 ==> s[0] != 0x30)
  }

  /** There is no other way to write the number without a leading zero. */
  lemma {:induction false} NumeralUnique(s: seq<nat>, base: nat)
    requires base >= 2 && IsNumeral(s, base)
    ensures Decode(s, base) >= 0 && (|s| > 1 ==> Decode(s, base) >= base)
    ensures Digits(Decode(s, base), base) == s
  {
    var last := |s| - 1;
    var d := s[last] - 0x30;
    if last == 0 {
      OneDigit(s, base);
    } else {
      hide Digits;
      var front := s[..last];
      NumeralUnique(front, base);
      FrontPositive(front, base);
      NumeralStep(s, base, Decode(front, base), d);
    }
  }

  lemma NumeralStep(s: seq<nat>, base: nat, v: nat, d: nat)
    requires base >= 2 && |s| >= 2 && v > 0 && d < base && s[|s| - 1] == d + 0x30
    requires v == Decode(s[..|s| - 1], base) && Digits(v, base) == s[..|s| - 1]
    ensures Decode(s, base) == v * base + d >= base && Digits(v * base + d, base) == s
  {
    assert Decode(s, base) == v * base + d;
    hide Decode;
    SplitLast(v, d, base);
    MoreDigits(v, d, base);
    hide Digits;
    assert s == s[..|s| - 1] + [s[|s| - 1]];
  }

  lemma OneDigit(s: seq<nat>, base: nat)
    requires base >= 2 && |s| == 1 && 0x30 <= s[0] < 0x30 + base
    ensures Decode(s, base) == s[0] - 0x30 && Digits(s[0] - 0x30, base) == s
  {
    assert s[..0] == [];
    assert Decode([], base) == 0;
  }

  lemma MoreDigits(v: nat, d: nat, base: nat)
    requires base >= 2 && v * base + d >= base && (v * base + d) / base == v && (v * base + d) % base == d
    ensures Digits(v * base + d, base) == Digits(v, base) + [d + 0x30]
  {}

  lemma FrontPositive(s: seq<nat>, base: nat)
    requires base >= 2 && IsNumeral(s, base) && s[0] != 0x30
    requires |s| > 1 ==> Decode(s, base) >= base
    ensures Decode(s, base) > 0
  {
    if |s| == 1 { assert s[..0] == []; }
  }

  lemma SplitLast(v: int, d: int, base: nat)
    requires v > 0 && 0 <= d < base
    ensures v * base + d >= base && (v * base + d) / base == v && (v * base + d) % base == d
  {
    assert v * base >= base by { assert (v - 1) * base >= 0; }
    DivModUnique(v * base + d, base, v, d);
  }

  function Hex(n: nat): nat
  {
    if n < 10 then 0x30 + n else 0x57 + n
  }

  function HexDigits(value: nat, n: nat): (r: seq<nat>)
    ensures |r| == n
  {
    if n == 0 then [] else HexDigits(value / 16, n - 1) + [Hex(value % 16)]
  }

  function HexValue(c: nat): int { if c < 0x3A then c as int - 0x30 else c as int - 0x57 }

  function DecodeHex(s: seq<nat>): int
  {
    if s == [] then 0 else DecodeHex(s[..|s| - 1]) * 16 + HexValue(s[|s| - 1])
  }

  /** n hexadecimal digits hold the low 4n bits. */
  lemma {:induction false} DecodeHexDigits(value: nat, n: nat)
    ensures DecodeHex(HexDigits(value, n)) == value % Pow2(4 * n)
  {
    if n > 0 {
      DecodeHexDigits(value / 16, n - 1);
      var s := HexDigits(value, n);
      assert s[..n - 1] == HexDigits(value / 16, n - 1);
      assert Pow2(4 * n) == 16 * Pow2(4 * (n - 1)) by {
        assert Pow2(4 * n - 1) == 2 * Pow2(4 * n - 2) && Pow2(4 * n - 3) == 2 * Pow2(4 * n - 4);
      }
      SixteenMod(value, Pow2(4 * (n - 1)));
    }
  }

  lemma SixteenMod(x: nat, p: nat)
    requires p >= 1
    ensures x % (16 * p) == x % 16 + 16 * ((x / 16) % p)
  {
    var q, r := (x / 16) / p, (x / 16) % p;
    assert x / 16 == q * p + r;
    assert x == (16 * p) * q + (x % 16 + 16 * r);
    DivModUnique(x, 16 * p, q, x % 16 + 16 * r);
  }

  /** The 8 digits that are printed give a 32-bit value back. */
  lemma HexRoundTrip(value: nat)
    requires value < 0x1_0000_0000
    ensures DecodeHex(HexDigits(value, 8)) == value
  {
    DecodeHexDigits(value, 8);
    Pow2Values();
    SmallMod(value, Pow2(32));
  }

  // ---- formats -------------------------------------------------------------------------------

  datatype Arg = Str(s: seq<nat>) | Word(w: nat)

  const PERCENT := 0x25
  const BACKSLASH := 0x5C

  function Escape(c: nat): seq<nat>
  {
    if c == 0x61 then [0x07] else if c == 0x62 then [0x08] else if c == 0x74 then [0x09]
    else if c == 0x6E then [0x0A] else if c == 0x72 then [0x0D] else if c == BACKSLASH then [BACKSLASH]
    else []
  }

  predicate Takes(c: nat) { c == 0x73 || c == 0x63 || c == 0x78 || c == 0x64 }   // s c x d

  predicate Fits(c: nat, a: Arg)
  {
    if c == 0x73 then a.Str? && forall i :: 0 <= i < |a.s| ==> 0 < a.s[i] < 0x100
    else a.Word? && a.w < 0x1_0000_0000
  }

  /** Every `%` and backslash is followed by a character, and conversions have arguments of
      the right kind. */
  predicate WellFormed(fmt: seq<nat>, args: seq<Arg>)
    decreases |fmt|
  {
    if fmt == [] then true
    else if fmt[0] == BACKSLASH then |fmt| >= 2 && WellFormed(fmt[2..], args)
    else if fmt[0] == PERCENT then
      |fmt| >= 2 &&
      if Takes(fmt[1]) then args != [] && Fits(fmt[1], args[0]) && WellFormed(fmt[2..], args[1..])
      else WellFormed(fmt[2..], args)
    else WellFormed(fmt[1..], args)
  }

  function Convert(c: nat, a: Arg): seq<nat>
    requires Takes(c) && Fits(c, a)
  {
    if c == 0x73 then a.s
    else if c == 0x63 then [a.w % 0x100]
    else if c == 0x78 then HexDigits(a.w, 8)
    else Digits(a.w, 10)
  }

  /** What a format prints. */
  function Render(fmt: seq<nat>, args: seq<Arg>): seq<nat>
    requires WellFormed(fmt, args)
    decreases |fmt|
  {
    if fmt == [] then []
    else if fmt[0] == BACKSLASH then Escape(fmt[1]) + Render(fmt[2..], args)
    else if fmt[0] == PERCENT then
      if Takes(fmt[1]) then Convert(fmt[1], args[0]) + Render(fmt[2..], args[1..])
      else [fmt[1]] + Render(fmt[2..], args)
    else [fmt[0]] + Render(fmt[1..], args)
  }

  /** How many arguments a format takes. */
  function Arity(fmt: seq<nat>): nat
    decreases |fmt|
  {
    if |fmt| <= 1 then 0
    else if fmt[0] == BACKSLASH then Arity(fmt[2..])
    else if fmt[0] == PERCENT then Arity(fmt[2..]) + (if Takes(fmt[1]) then 1 else 0)
    else Arity(fmt[1..])
  }

  /** One call with two formats joined prints what two calls print. */
  lemma {:induction false} RenderJoins(a: seq<nat>, x: seq<Arg>, b: seq<nat>, y: seq<Arg>)
    requires WellFormed(a, x) && |x| == Arity(a) && WellFormed(b, y)
    ensures WellFormed(a + b, x + y) && Render(a + b, x + y) == Render(a, x) + Render(b, y)
    decreases |a|
  {
    hide Convert, Fits, Takes, Escape;
    if a == [] {
      assert a + b == b && x + y == y;
    } else if a[0] == BACKSLASH {
      assert (a + b)[2..] == a[2..] + b;
      RenderJoins(a[2..], x, b, y);
    } else if a[0] == PERCENT {
      assert (a + b)[2..] == a[2..] + b;
      if Takes(a[1]) {
        assert (x + y)[1..] == x[1..] + y;
        RenderJoins(a[2..], x[1..], b, y);
      } else {
        RenderJoins(a[2..], x, b, y);
      }
    } else {
      assert (a + b)[1..] == a[1..] + b;
      RenderJoins(a[1..], x, b, y);
    }
  }

  // ---- what each conversion prints -----------------------------------------------------------

  lemma Conversion(c: nat, a: Arg, rest: seq<nat>, args: seq<Arg>)
    requires Takes(c) && Fits(c, a) && WellFormed(rest, args)
    ensures WellFormed([0x25, c] + rest, [a] + args)
    ensures Render([0x25, c] + rest, [a] + args) == Convert(c, a) + Render(rest, args)
  {
    assert ([0x25, c] + rest)[2..] == rest && ([a] + args)[1..] == args;
  }

  /** `%d` prints the decimal numeral of its argument, without a leading zero. */
  lemma PercentD(n: nat, rest: seq<nat>, args: seq<Arg>) returns (text: seq<nat>)
    requires n < 0x1_0000_0000 && WellFormed(rest, args)
    ensures WellFormed([0x25, 0x64] + rest, [Word(n)] + args)
    ensures Render([0x25, 0x64] + rest, [Word(n)] + args) == text + Render(rest, args)
    ensures |text| >= 1 && (forall i :: 0 <= i < |text| ==> 0x30 <= text[i] <= 0x39) && (|text| > 1 ==> text[0] != 0x30)
    ensures Decode(text, 10) == n
  {
    Conversion(0x64, Word(n), rest, args);
    text := Digits(n, 10);
    DigitsCanonical(n, 10);
    DecodeDigits(n, 10);
  }

  /** `%x` prints the eight hexadecimal digits of its argument, in lower case. */
  lemma PercentX(n: nat, rest: seq<nat>, args: seq<Arg>) returns (text: seq<nat>)
    requires n < 0x1_0000_0000 && WellFormed(rest, args)
    ensures WellFormed([0x25, 0x78] + rest, [Word(n)] + args)
    ensures Render([0x25, 0x78] + rest, [Word(n)] + args) == text + Render(rest, args)
    ensures |text| == 8 && DecodeHex(text) == n
    ensures forall k :: 0 <= k < 8 ==>
      var d := Quotient(n, Pow2(4 * (7 - k))) % 16;
      text[k] == if d < 10 then 0x30 + d else 0x61 + (d - 10)
  {
    Conversion(0x78, Word(n), rest, args);
    text := HexDigits(n, 8);
    HexRoundTrip(n);
    forall k | 0 <= k < 8
      ensures var d := Quotient(n, Pow2(4 * (7 - k))) % 16; text[k] == if d < 10 then 0x30 + d else 0x61 + (d - 10)
    {
      HexDigitAt(n, 8, k);
    }
  }

  lemma {:induction false} HexDigitAt(value: nat, n: nat, k: nat)
    requires k < n
    ensures HexDigits(value, n)[k] == Hex(Quotient(value, Pow2(4 * (n - 1 - k))) % 16)
  {
    if k < n - 1 {
      HexDigitAt(value / 16, n - 1, k);
      var p := Pow2(4 * (n - 2 - k));
      assert Pow2(4 * (n - 1 - k)) == 16 * p by { assert Pow2(4 * (n - 2 - k) + 2) == 4 * p; }
      DivMul(value, p);
    }
  }

  lemma DivMul(x: nat, p: nat)
    requires p >= 1
    ensures x / (16 * p) == (x / 16) / p
  {
    var q, r := (x / 16) / p, (x / 16) % p;
    assert x / 16 == q * p + r;
    assert x == (16 * p) * q + (16 * r + x % 16);
    DivModUnique(x, 16 * p, q, 16 * r + x % 16);
  }

  /** `%s` prints the string, `%c` the low byte of its argument. */
  lemma PercentSC(s: seq<nat>, n: nat, rest: seq<nat>, args: seq<Arg>)
    requires n < 0x1_0000_0000 && (forall i :: 0 <= i < |s| ==> 0 < s[i] < 0x100) && WellFormed(rest, args)
    ensures WellFormed([0x25, 0x73] + rest, [Str(s)] + args) && WellFormed([0x25, 0x63] + rest, [Word(n)] + args)
    ensures Render([0x25, 0x73] + rest, [Str(s)] + args) == s + Render(rest, args)
    ensures Render([0x25, 0x63] + rest, [Word(n)] + args) == [n % 0x100] + Render(rest, args)
  {
    Conversion(0x73, Str(s), rest, args);
    Conversion(0x63, Word(n), rest, args);
  }

  /** `%%`, and `%` before any other letter, prints that letter and takes no argument. */
  lemma PercentOther(c: nat, rest: seq<nat>, args: seq<Arg>)
    requires c != 0x73 && c != 0x63 && c != 0x78 && c != 0x64 && WellFormed(rest, args)
    ensures WellFormed([0x25, c] + rest, args) && Render([0x25, c] + rest, args) == [c] + Render(rest, args)
  {
    assert ([0x25, c] + rest)[2..] == rest;
  }

  /** A character that is neither `%` nor a backslash prints itself. */
  lemma Plain(c: nat, rest: seq<nat>, args: seq<Arg>)
    requires c != 0x25 && c != 0x5C && WellFormed(rest, args)
    ensures WellFormed([c] + rest, args) && Render([c] + rest, args) == [c] + Render(rest, args)
  {
    assert ([c] + rest)[1..] == rest;
  }

  /** A backslash before a, b, t, n, r or a backslash prints bell, backspace, tab, line feed,
      carriage return or a backslash; before any other character, nothing. */
  lemma Backslash(c: nat, rest: seq<nat>, args: seq<Arg>)
    requires WellFormed(rest, args)
    ensures WellFormed([0x5C, c] + rest, args)
    ensures c == 0x61 ==> Render([0x5C, c] + rest, args) == [0x07] + Render(rest, args)
    ensures c == 0x62 ==> Render([0x5C, c] + rest, args) == [0x08] + Render(rest, args)
    ensures c == 0x74 ==> Render([0x5C, c] + rest, args) == [0x09] + Render(rest, args)
    ensures c == 0x6E ==> Render([0x5C, c] + rest, args) == [0x0A] + Render(rest, args)
    ensures c == 0x72 ==> Render([0x5C, c] + rest, args) == [0x0D] + Render(rest, args)
    ensures c == 0x5C ==> Render([0x5C, c] + rest, args) == [0x5C] + Render(rest, args)
    ensures c !in {0x61, 0x62, 0x74, 0x6E, 0x72, 0x5C} ==> Render([0x5C, c] + rest, args) == Render(rest, args)
  {
    assert ([0x5C, c] + rest)[2..] == rest;
    assert Render([0x5C, c] + rest, args) == Escape(c) + Render(rest, args);
  }

  // ---- one round of the loop -----------------------------------------------------------------

  /** The piece that the format prints at index i, and where it goes on from there. */
  datatype Piece = Piece(text: seq<nat>, i: nat, k: nat)

  function Next(f: seq<nat>, args: seq<Arg>, i: nat, k: nat): Piece
    requires i < |f| && k <= |args| && WellFormed(f[i..], args[k..])
  {
    if f[i] == BACKSLASH then Piece(Escape(f[i + 1]), i + 2, k)
    else if f[i] == PERCENT then
      if Takes(f[i + 1]) then Piece(Convert(f[i + 1], args[k]), i + 2, k + 1)
      else Piece([f[i + 1]], i + 2, k)
    else Piece([f[i]], i + 1, k)
  }

  lemma NextRenders(f: seq<nat>, args: seq<Arg>, i: nat, k: nat)
    requires i < |f| && k <= |args| && WellFormed(f[i..], args[k..])
    ensures var p := Next(f, args, i, k);
            && p.i <= |f| && p.k <= |args| && WellFormed(f[p.i..], args[p.k..])
            && Render(f[i..], args[k..]) == p.text + Render(f[p.i..], args[p.k..])
  {
    assert f[i..][1..] == f[i + 1..];
    if |f| - i >= 2 { assert f[i..][2..] == f[i + 2..]; }
    if k < |args| { assert args[k..][1..] == args[k + 1..]; }
  }

  predicate AllBytes(s: seq<nat>) { forall i :: 0 <= i < |s| ==> s[i] < 0x100 }

  lemma {:induction false} HexBytes(value: nat, n: nat)
    ensures AllBytes(HexDigits(value, n))
  {
    if n > 0 { HexBytes(value / 16, n - 1); }
  }

  lemma ConvertBytes(c: nat, a: Arg)
    requires Takes(c) && Fits(c, a)
    ensures AllBytes(Convert(c, a))
  {
    if c == 0x78 { HexBytes(a.w, 8); }
    if c == 0x64 { DigitsCanonical(a.w, 10); }
  }

  /** Everything printed is a byte. */
  lemma {:induction false} RenderBytes(fmt: seq<nat>, args: seq<Arg>)
    requires WellFormed(fmt, args) && AllBytes(fmt)
    ensures AllBytes(Render(fmt, args))
    decreases |fmt|
  {
    hide Convert, Fits, Takes;
    if fmt == [] {
    } else if fmt[0] == BACKSLASH {
      RenderBytes(fmt[2..], args);
    } else if fmt[0] == PERCENT {
      if Takes(fmt[1]) {
        ConvertBytes(fmt[1], args[0]);
        RenderBytes(fmt[2..], args[1..]);
      } else {
        RenderBytes(fmt[2..], args);
      }
    } else {
      RenderBytes(fmt[1..], args);
    }
  }

  /** The part of a buffer's text that `puts` prints. */
  function UpToNul(s: seq<nat>): (r: seq<nat>)
    ensures |r| <= |s| && r == s[..|r|]
    ensures forall i :: 0 <= i < |r| ==> r[i] > 0
    ensures |r| < |s| ==> s[|r|] == 0
  {
    if s == [] || s[0] == 0 then [] else [s[0]] + UpToNul(s[1..])
  }

  const BUFFER := 1024

  class Printer {
    const buf: array<int>
    var ptr: int
    const screen: Screen

    constructor (screen: Screen)
      ensures this.screen == screen && fresh(buf) && buf.Length == BUFFER
    {
      buf := new int[BUFFER](k => if k == 0 then 0xFF else 0);   // {-1}
      ptr := -1;
      this.screen := screen;
    }

    ghost predicate Ready(need: int)
      reads this, buf
    {
      buf.Length == BUFFER && 0 <= ptr && ptr + need <= BUFFER
    }

    method Append(c: int)
      requires Ready(1)
      modifies buf, this`ptr
      ensures ptr == old(ptr) + 1 && buf[..ptr] == old(buf[..ptr]) + [c]
    {
      buf[ptr] := c;
      ptr := ptr + 1;
    }

    /** Decimal digits, most significant first, by recursion. */
    method ParseNum(value: nat, base: nat)
      requires 2 <= base <= 0x8000_0000 && Ready(|Digits(value, base)|)
      modifies buf, this`ptr
      ensures ptr == old(ptr) + |Digits(value, base)| && buf[..ptr] == old(buf[..ptr]) + Digits(value, base)
      decreases value
    {
      var n := value / base;
      var r := value % base;
      DigitsStep(value, base);
      hide Digits;
      assert 0 <= r < 0x8000_0000;     // so the signed test of line 24 never fires
      if value >= base {
        ParseNum(n, base);
      }
      Append(r + 0x30);
    }

    method ParseHex(value: nat)
      requires value < 0x1_0000_0000 && Ready(8)
      modifies buf, this`ptr
      ensures ptr == old(ptr) + 8 && buf[..ptr] == old(buf[..ptr]) + HexDigits(value, 8)
    {
      hide Shr, BitAnd;
      var i := 8;
      HexTop(value);
      while i > 0
        invariant 0 <= i <= 8 && buf.Length == BUFFER && ptr == old(ptr) + 8 - i
        invariant buf[..ptr] == old(buf[..ptr]) + HexDigits(Shr(value, 4 * i), 8 - i)
      {
        i := i - 1;
        HexStep(value, i);
        Append(Hex(BitAnd(Shr(value, i * 4), 0xF)));
      }
      HexTop(value);
    }

    /** The character after a backslash. */
    method PutEscape(c: nat)
      requires Ready(|Escape(c)|)
      modifies buf, this`ptr
      ensures ptr == old(ptr) + |Escape(c)| && buf[..ptr] == old(buf[..ptr]) + Escape(c)
    {
      if c == 0x61 { Append(0x07); }
      else if c == 0x62 { Append(0x08); }
      else if c == 0x74 { Append(0x09); }
      else if c == 0x6E { Append(0x0A); }
      else if c == 0x72 { Append(0x0D); }
      else if c == BACKSLASH { Append(BACKSLASH); }
    }

    /** One conversion and its argument. */
    method PutConversion(c: nat, a: Arg)
      requires Takes(c) && Fits(c, a) && Ready(|Convert(c, a)|)
      modifies buf, this`ptr
      ensures ptr == old(ptr) + |Convert(c, a)| && buf[..ptr] == old(buf[..ptr]) + Convert(c, a)
    {
      if c == 0x73 {
        var j := 0;
        while j < |a.s|
          invariant 0 <= j <= |a.s| && buf.Length == BUFFER && ptr == old(ptr) + j
          invariant buf[..ptr] == old(buf[..ptr]) + a.s[..j]
        {
          Append(a.s[j]);
          j := j + 1;
        }
        assert a.s[..j] == a.s;
      } else if c == 0x63 {
        Append(a.w % 0x100);
      } else if c == 0x78 {
        ParseHex(a.w);
      } else {
        ParseNum(a.w, 10);
      }
    }

    /** One round of the loop: the piece of the format at index i. */
    method Emit(fmt: array<int>, ghost f: seq<nat>, args: seq<Arg>, at: nat, k: nat) returns (i: nat, next: nat)
      requires at < |f| <= fmt.Length && fmt[..|f|] == f && k <= |args| && fmt != buf
      requires WellFormed(f[at..], args[k..]) && Ready(|Next(f, args, at, k).text|)
      modifies buf, this`ptr
      ensures i == Next(f, args, at, k).i && next == Next(f, args, at, k).k
      ensures ptr == old(ptr) + |Next(f, args, at, k).text|
      ensures buf[..ptr] == old(buf[..ptr]) + Next(f, args, at, k).text
    {
      i, next := at, k;
      assert fmt[i] == f[i] && (f[i] == PERCENT || f[i] == BACKSLASH ==> fmt[i + 1] == f[i + 1]);
      if fmt[i] != PERCENT && fmt[i] != BACKSLASH {
        Append(fmt[i]);
      } else if fmt[i] == BACKSLASH {
        i := i + 1;
        PutEscape(fmt[i]);
      } else {
        i := i + 1;
        if Takes(fmt[i]) {
          PutConversion(fmt[i], args[k]);
          next := k + 1;
        } else {
          Append(fmt[i]);
        }
      }
      i := i + 1;
    }

    /** Format into the buffer, close it with a NUL and put it on the screen. */
    method Kprintf(fmt: array<int>, ghost f: seq<nat>, args: seq<Arg>)
      requires |f| < fmt.Length && fmt[..|f|] == f && fmt[|f|] == 0 && AllBytes(f) && 0 !in f
      requires WellFormed(f, args) && |Render(f, args)| < 1024
      requires screen.Valid() && buf.Length == BUFFER
      requires buf != screen.buf && fmt != buf && fmt != screen.buf
      modifies buf, this`ptr, screen`csrX, screen`csrY, screen`term, screen.buf
      ensures ptr == |Render(f, args)| && buf[..ptr] == Render(f, args) && buf[ptr] == 0
      ensures screen.Valid() && Proper(old(screen.term))
      ensures screen.term == PutAll(old(screen.term), UpToNul(Render(f, args)), screen.attrib)
    {
      RenderBytes(f, args);
      Fill(fmt, f, args);
      hide *;
      ghost var shown := Shown(buf[..], Render(f, args));
      screen.Puts(buf, |shown|);
    }

    method Fill(fmt: array<int>, ghost f: seq<nat>, args: seq<Arg>)
      requires |f| < fmt.Length && fmt[..|f|] == f && fmt[|f|] == 0 && 0 !in f
      requires WellFormed(f, args) && |Render(f, args)| < 1024
      requires buf.Length == BUFFER && fmt != buf
      modifies buf, this`ptr
      ensures ptr == |Render(f, args)| && buf[..ptr] == Render(f, args) && buf[ptr] == 0
    {
      hide WellFormed, Next, Render;
      ghost var text := Render(f, args);
      var i, k := 0, 0;
      ptr := 0;
      assert f[0..] == f && args[0..] == args;
      Terminated(fmt[..], f);
      while fmt[i] != 0
        invariant 0 <= i <= |f| && 0 <= k <= |args| && 0 <= ptr <= |text|
        invariant WellFormed(f[i..], args[k..])
        invariant buf[..ptr] + Render(f[i..], args[k..]) == text
        invariant i == |f| <==> fmt[i] == 0
        decreases |f| - i
      {
        NextRenders(f, args, i, k);
        NextLater(f, args, i, k);
        ghost var p, done := Next(f, args, i, k), buf[..ptr];
        ghost var rest := Render(f[p.i..], args[p.k..]);
        Regrouped(done, p.text, rest);
        i, k := Emit(fmt, f, args, i, k);
        assert buf[..ptr] + rest == text;
      }
      RenderEnd(f[i..], args[k..]);
      buf[ptr] := 0;
    }
  }

  lemma Shown(b: seq<int>, text: seq<nat>) returns (shown: seq<nat>)
    requires |text| < |b| && b[..|text|] == text && b[|text|] == 0 && AllBytes(text)
    ensures shown == UpToNul(text) && |shown| < |b| && b[..|shown|] == shown && b[|shown|] == 0
    ensures forall i :: 0 <= i < |shown| ==> 0 < b[i] < 0x100
  {
    shown := UpToNul(text);
    assert b[..|shown|] == text[..|shown|];
    forall i | 0 <= i < |shown| ensures 0 < b[i] < 0x100 {
      assert b[i] == shown[i] == text[i];
    }
  }

  lemma Regrouped(a: seq<int>, b: seq<int>, c: seq<int>)
    ensures (a + b) + c == a + (b + c)
  {}

  lemma RenderEnd(f: seq<nat>, args: seq<Arg>)
    requires f == [] && WellFormed(f, args)
    ensures Render(f, args) == []
  {}

  lemma NextLater(f: seq<nat>, args: seq<Arg>, i: nat, k: nat)
    requires i < |f| && k <= |args| && WellFormed(f[i..], args[k..])
    ensures Next(f, args, i, k).i > i
  {}

  lemma Terminated(s: seq<int>, f: seq<nat>)
    requires |f| < |s| && s[..|f|] == f && s[|f|] == 0 && 0 !in f
    ensures forall i :: 0 <= i <= |f| ==> (s[i] == 0 <==> i == |f|)
  {
    forall i | 0 <= i < |f| ensures s[i] != 0 {
      var x := f[i];
      assert x in f && s[..|f|][i] == x;
    }
  }

  function Shr(x: nat, k: nat): nat { Quotient(x, Pow2(k)) }

  lemma HexTop(value: nat)
    ensures Shr(value, 0) == value
  {}

  /** Masking a shifted value yields its next hexadecimal digit. */
  lemma HexStep(value: nat, i: nat)
    ensures BitAnd(Shr(value, 4 * i), 0xF) == Shr(value, 4 * i) % 16
    ensures Shr(value, 4 * (i + 1)) == Shr(value, 4 * i) / 16
  {
    var s, p := Shr(value, 4 * i), Pow2(4 * i);
    LowDigit(s);
    assert Pow2(4 * i + 4) == 16 * p by { assert Pow2(4 * i + 2) == 4 * p; }
    DivDiv(value, p);
  }

  lemma LowDigit(x: nat)
    ensures BitAnd(x, 0xF) == x % 16
  {
    assert Pow2(4) == 16;
    AndLowMask(x, 4);
  }

  lemma DivDiv(x: nat, p: nat)
    requires p >= 1
    ensures x / (16 * p) == (x / p) / 16
  {
    var q, r := x / p, x % p;
    var a, b := q / 16, q % 16;
    assert x == q * p + r && q == 16 * a + b;
    Regroup(a, b, p, r);
    DivModUnique(x, 16 * p, a, b * p + r);
  }

  lemma Regroup(a: nat, b: nat, p: nat, r: nat)
    requires b < 16 && r < p
    ensures (16 * a + b) * p + r == (16 * p) * a + (b * p + r)
    ensures b * p + r < 16 * p
  {
    assert b * p <= 15 * p;
  }
}
