/** The C library string routines the connection code relies on, restricted
    to the uses it makes of them: NUL-terminated strings inside a buffer,
    strpbrk and strspn over " \t", ASCII strcasecmp/strncasecmp, glibc's
    atol (strtol in base 10) and printf's %d. */
module CStrings {
  import opened HttpTypes

  const NUL: char := '\0'

  /** The set " \t" handed to strpbrk and strspn. */
  predicate IsBlank(c: char) { c == ' ' || c == '\t' }

  /** isspace() in the C locale. */
  predicate IsSpace(c: char) {
    c == ' ' || c == '\t' || c == '\n' || c == '\U{000B}' || c == '\U{000C}' || c == '\r'
  }

  predicate IsDigit(c: char) { '0' <= c <= '9' }

  predicate NoBlank(s: seq<char>) { forall k :: 0 <= k < |s| ==> !IsBlank(s[k]) }

  predicate AllBlank(s: seq<char>) { forall k :: 0 <= k < |s| ==> IsBlank(s[k]) }

  /** The C string that starts at `off`: the bytes before the first NUL. A
      buffer with no NUL after `off` ends the string at its end. */
  function CString(buf: seq<char>, off: nat): (s: seq<char>)
    requires off <= |buf|
    ensures |s| <= |buf| - off
    decreases |buf| - off
  {
    if off == |buf| || buf[off] == NUL then [] else [buf[off]] + CString(buf, off + 1)
  }

  /** The bytes of the C string at `off` are the buffer's bytes from there,
      none of them NUL, and a NUL or the end of the buffer follows them. */
  lemma {:induction false} CStringBytes(buf: seq<char>, off: nat)
    requires off <= |buf|
    ensures var s := CString(buf, off);
      && (forall k :: 0 <= k < |s| ==> s[k] == buf[off + k] && s[k] != NUL)
      && (off + |s| == |buf| || buf[off + |s|] == NUL)
    decreases |buf| - off
  {
    if off < |buf| && buf[off] != NUL {
      CStringBytes(buf, off + 1);
      var s := CString(buf, off);
      assert forall k :: 1 <= k < |s| ==> s[k] == CString(buf, off + 1)[k - 1];
    }
  }

  /** The C string at `off` is a NUL-free run of the buffer's bytes that
      ends at a NUL or at the end of the buffer. */
  lemma CStringRun(buf: seq<char>, off: nat)
    requires off <= |buf|
    ensures var s := CString(buf, off);
      && s == buf[off..off + |s|] && NUL !in s
      && (off + |s| == |buf| || buf[off + |s|] == NUL)
  {
    CStringBytes(buf, off);
  }

  /** A NUL-free run of bytes that ends at a NUL or at the end of the buffer
      is the C string there. */
  lemma {:induction false} CStringUnique(buf: seq<char>, off: nat, s: seq<char>)
    requires off + |s| <= |buf| && s == buf[off..off + |s|] && NUL !in s
    requires off + |s| == |buf| || buf[off + |s|] == NUL
    ensures CString(buf, off) == s
    decreases |s|
  {
    if |s| > 0 {
      assert s[0] == buf[off];
      assert s[1..] == buf[off + 1..off + |s|];
      CStringUnique(buf, off + 1, s[1..]);
    }
  }

  /** The string starting `a` bytes later is the tail of the string. */
  lemma {:induction false} CStringSuffix(buf: seq<char>, off: nat, a: nat)
    requires off <= |buf| && a <= |CString(buf, off)|
    ensures CString(buf, off + a) == CString(buf, off)[a..]
    decreases a
  {
    if a > 0 {
      CStringSuffix(buf, off + 1, a - 1);
    }
  }

  /** Writing before the start of a string does not change it. */
  lemma {:induction false} CStringWriteBefore(buf: seq<char>, k: nat, c: char, off: nat)
    requires k < off <= |buf|
    ensures CString(buf[k := c], off) == CString(buf, off)
    decreases |buf| - off
  {
    if off < |buf| {
      CStringWriteBefore(buf, k, c, off + 1);
    }
  }

  /** Writing a NUL inside a string cuts it there. */
  lemma {:induction false} CStringCut(buf: seq<char>, off: nat, i: nat)
    requires off <= |buf| && i < |CString(buf, off)|
    ensures CString(buf[off + i := NUL], off) == CString(buf, off)[..i]
    decreases i
  {
    if i > 0 {
      CStringCut(buf, off + 1, i - 1);
      assert buf[off + i := NUL][off] == buf[off];
    }
  }

  /** Writing past the end of a string does not change it. */
  lemma {:induction false} CStringWriteAfter(buf: seq<char>, off: nat, k: nat, c: char)
    requires off <= |buf| && off + |CString(buf, off)| < k < |buf|
    ensures CString(buf[k := c], off) == CString(buf, off)
    decreases |buf| - off
  {
    if buf[off] != NUL {
      CStringWriteAfter(buf, off + 1, k, c);
    }
  }

  /** strpbrk(s, " \t"): the index of the first space or tab, if any. */
  function FirstBlank(s: seq<char>): (r: Option<nat>)
    ensures r.Some? ==> r.value < |s|
  {
    FirstBlankFrom(s, 0)
  }

  function FirstBlankFrom(s: seq<char>, i: nat): (r: Option<nat>)
    requires i <= |s|
    ensures r.Some? ==> i <= r.value < |s|
    decreases |s| - i
  {
    if i == |s| then None
    else if IsBlank(s[i]) then Some(i)
    else FirstBlankFrom(s, i + 1)
  }

  lemma {:induction false} FirstBlankFromFinds(s: seq<char>, i: nat)
    requires i <= |s|
    ensures var r := FirstBlankFrom(s, i);
      && (r.Some? ==> IsBlank(s[r.value]) && forall k :: i <= k < r.value ==> !IsBlank(s[k]))
      && (r.None? ==> forall k :: i <= k < |s| ==> !IsBlank(s[k]))
    decreases |s| - i
  {
    if i < |s| && !IsBlank(s[i]) {
      FirstBlankFromFinds(s, i + 1);
    }
  }

  /** strpbrk finds a blank with none before it, or answers null when the
      string has none. */
  lemma FirstBlankFinds(s: seq<char>)
    ensures var r := FirstBlank(s);
      && (r.Some? ==> IsBlank(s[r.value]) && forall k :: 0 <= k < r.value ==> !IsBlank(s[k]))
      && (r.None? ==> NoBlank(s))
  {
    FirstBlankFromFinds(s, 0);
  }

  /** strspn(s, " \t"): the length of the leading run of spaces and tabs. */
  function BlankSpan(s: seq<char>): (n: nat)
    ensures n <= |s|
  {
    BlankEnd(s, 0)
  }

  /** s + i + strspn(s + i, " \t") as an offset: the end of the run of
      spaces and tabs at `i`. Over a buffer it never passes a NUL, which is
      not blank. */
  function BlankEnd(s: seq<char>, i: nat): (e: nat)
    requires i <= |s|
    ensures i <= e <= |s|
    decreases |s| - i
  {
    if i < |s| && IsBlank(s[i]) then BlankEnd(s, i + 1) else i
  }

  lemma {:induction false} BlankEndStops(s: seq<char>, i: nat)
    requires i <= |s|
    ensures forall k :: i <= k < BlankEnd(s, i) ==> IsBlank(s[k])
    ensures BlankEnd(s, i) < |s| ==> !IsBlank(s[BlankEnd(s, i)])
    decreases |s| - i
  {
    if i < |s| && IsBlank(s[i]) {
      BlankEndStops(s, i + 1);
    }
  }

  /** strspn covers blanks only, and stops at a non-blank or at the end. */
  lemma BlankSpanStops(s: seq<char>)
    ensures AllBlank(s[..BlankSpan(s)])
    ensures BlankSpan(s) < |s| ==> !IsBlank(s[BlankSpan(s)])
  {
    BlankEndStops(s, 0);
  }

  /** strpbrk finds the first blank and no other. */
  lemma FirstBlankAt(s: seq<char>, n: nat)
    requires n < |s| && IsBlank(s[n]) && forall k :: 0 <= k < n ==> !IsBlank(s[k])
    ensures FirstBlank(s) == Some(n)
  {
    FirstBlankFinds(s);
  }

  /** strspn stops at the first non-blank and nowhere else. */
  lemma BlankSpanAt(s: seq<char>, n: nat)
    requires n <= |s| && (forall k :: 0 <= k < n ==> IsBlank(s[k])) && (n == |s| || !IsBlank(s[n]))
    ensures BlankSpan(s) == n
  {
    BlankEndStops(s, 0);
  }

  /** strpbrk from `i` finds the first blank from there and no other. */
  lemma FirstBlankFromAt(s: seq<char>, i: nat, n: nat)
    requires i <= n < |s| && IsBlank(s[n]) && forall k :: i <= k < n ==> !IsBlank(s[k])
    ensures FirstBlankFrom(s, i) == Some(n)
  {
    FirstBlankFromFinds(s, i);
  }

  /** strspn from `i` stops at the first non-blank from there and nowhere
      else. */
  lemma BlankEndAt(s: seq<char>, i: nat, n: nat)
    requires i <= n <= |s| && (forall k :: i <= k < n ==> IsBlank(s[k])) && (n == |s| || !IsBlank(s[n]))
    ensures BlankEnd(s, i) == n
  {
    BlankEndStops(s, i);
  }

  /** strpbrk on a blank-free head followed by a blank. */
  lemma FirstBlankOfConcat(x: seq<char>, y: seq<char>)
    requires NoBlank(x) && |y| > 0 && IsBlank(y[0])
    ensures FirstBlank(x + y) == Some(|x|)
    ensures (x + y)[..|x|] == x && (x + y)[|x| + 1..] == y[1..]
  {
    FirstBlankAt(x + y, |x|);
  }

  /** strspn on a run of blanks followed by a non-blank or nothing. */
  lemma BlankSpanOfConcat(x: seq<char>, y: seq<char>)
    requires AllBlank(x) && (|y| == 0 || !IsBlank(y[0]))
    ensures BlankSpan(x + y) == |x| && (x + y)[|x|..] == y
  {
    BlankSpanAt(x + y, |x|);
  }

  /** strpbrk on a string that starts with a non-blank looks in its tail. */
  lemma FirstBlankOfCons(c: char, s: seq<char>)
    requires !IsBlank(c)
    ensures FirstBlank([c] + s).None? <==> FirstBlank(s).None?
    ensures FirstBlank(s).Some? ==> FirstBlank([c] + s) == Some(FirstBlank(s).value + 1)
  {
    FirstBlankFinds(s);
    FirstBlankFinds([c] + s);
    if FirstBlank(s).Some? {
      var i := FirstBlank(s).value;
      forall k | 0 <= k < i + 1 ensures !IsBlank(([c] + s)[k]) {
        if k > 0 { assert ([c] + s)[k] == s[k - 1]; }
      }
      FirstBlankAt([c] + s, i + 1);
    }
  }

  /** strspn on a string that starts with a blank counts it and goes on. */
  lemma BlankSpanOfCons(c: char, s: seq<char>)
    requires IsBlank(c)
    ensures BlankSpan([c] + s) == 1 + BlankSpan(s)
  {
    BlankEndStops(s, 0);
    var n := BlankSpan(s);
    forall k | 0 <= k < n + 1 ensures IsBlank(([c] + s)[k]) {
      if k > 0 { assert ([c] + s)[k] == s[k - 1]; }
    }
    if n < |s| {
      assert ([c] + s)[n + 1] == s[n];
    }
    BlankSpanAt([c] + s, n + 1);
  }

  /** strpbrk(buf + off, " \t"): the offset of the first space or tab
      before the terminating NUL of the string at `off`, if any. */
  function FindBlank(buf: seq<char>, off: nat): (r: Option<nat>)
    requires off <= |buf|
    ensures r.Some? ==> off <= r.value < |buf|
    decreases |buf| - off
  {
    if off == |buf| || buf[off] == NUL then None
    else if IsBlank(buf[off]) then Some(off)
    else FindBlank(buf, off + 1)
  }

  /** strpbrk in the buffer finds what FirstBlank finds in the C string
      there, at the corresponding offset. */
  lemma {:induction false} FindBlankInString(buf: seq<char>, off: nat)
    requires off <= |buf|
    ensures FindBlank(buf, off).None? <==> FirstBlank(CString(buf, off)).None?
    ensures FirstBlank(CString(buf, off)).Some? ==>
      FindBlank(buf, off) == Some(off + FirstBlank(CString(buf, off)).value)
    decreases |buf| - off
  {
    if off == |buf| || buf[off] == NUL {
    } else if IsBlank(buf[off]) {
      FirstBlankAt(CString(buf, off), 0);
    } else {
      FirstBlankOfCons(buf[off], CString(buf, off + 1));
      FindBlankInString(buf, off + 1);
    }
  }

  /** strspn in the buffer counts what BlankSpan counts in the C string
      there. */
  lemma {:induction false} SkipBlanksInString(buf: seq<char>, off: nat)
    requires off <= |buf|
    ensures BlankEnd(buf, off) == off + BlankSpan(CString(buf, off))
    decreases |buf| - off
  {
    if off == |buf| || buf[off] == NUL {
    } else if IsBlank(buf[off]) {
      BlankSpanOfCons(buf[off], CString(buf, off + 1));
      SkipBlanksInString(buf, off + 1);
    } else {
      BlankSpanAt(CString(buf, off), 0);
    }
  }

  /** strpbrk in the buffer, from a point inside the C string at `text`,
      finds what FirstBlankFrom finds in that string from the same point. */
  lemma {:induction false} FindBlankInLine(buf: seq<char>, text: nat, x: nat)
    requires text <= |buf| && text <= x <= text + |CString(buf, text)|
    ensures var f := FirstBlankFrom(CString(buf, text), x - text);
      && (FindBlank(buf, x).None? <==> f.None?)
      && (f.Some? ==> FindBlank(buf, x) == Some(text + f.value))
    decreases |buf| - x
  {
    var line := CString(buf, text);
    CStringBytes(buf, text);
    if x < text + |line| {
      assert buf[x] == line[x - text];
      if !IsBlank(buf[x]) {
        FindBlankInLine(buf, text, x + 1);
      }
    }
  }

  /** strspn in the buffer, from a point inside the C string at `text`,
      stops where BlankEnd stops in that string. */
  lemma {:induction false} SkipBlanksInLine(buf: seq<char>, text: nat, x: nat)
    requires text <= |buf| && text <= x <= text + |CString(buf, text)|
    ensures BlankEnd(buf, x) == text + BlankEnd(CString(buf, text), x - text)
    decreases |buf| - x
  {
    var line := CString(buf, text);
    CStringBytes(buf, text);
    if x < text + |line| {
      assert buf[x] == line[x - text];
      if IsBlank(buf[x]) {
        SkipBlanksInLine(buf, text, x + 1);
      }
    }
  }

  /** strpbrk reads nothing before its starting point. */
  lemma {:induction false} FindBlankWriteBefore(buf: seq<char>, k: nat, c: char, x: nat)
    requires k < x <= |buf|
    ensures FindBlank(buf[k := c], x) == FindBlank(buf, x)
    decreases |buf| - x
  {
    if x < |buf| {
      FindBlankWriteBefore(buf, k, c, x + 1);
    }
  }

  /** strspn reads nothing before its starting point. */
  lemma {:induction false} SkipBlanksWriteBefore(buf: seq<char>, k: nat, c: char, x: nat)
    requires k < x <= |buf|
    ensures BlankEnd(buf[k := c], x) == BlankEnd(buf, x)
    decreases |buf| - x
  {
    if x < |buf| {
      SkipBlanksWriteBefore(buf, k, c, x + 1);
    }
  }

  /** The leading run of isspace() bytes that strtol skips. */
  function SpaceSpan(s: seq<char>): (n: nat)
    ensures n <= |s| && forall k :: 0 <= k < n ==> IsSpace(s[k])
    ensures n < |s| ==> !IsSpace(s[n])
  {
    SpaceEnd(s, 0)
  }

  function SpaceEnd(s: seq<char>, i: nat): (e: nat)
    requires i <= |s|
    ensures i <= e <= |s| && forall k :: i <= k < e ==> IsSpace(s[k])
    ensures e < |s| ==> !IsSpace(s[e])
    decreases |s| - i
  {
    if i < |s| && IsSpace(s[i]) then SpaceEnd(s, i + 1) else i
  }

  /** The leading run of decimal digits. */
  function DigitSpan(s: seq<char>): (n: nat)
    ensures n <= |s| && forall k :: 0 <= k < n ==> IsDigit(s[k])
    ensures n < |s| ==> !IsDigit(s[n])
  {
    DigitEnd(s, 0)
  }

  function DigitEnd(s: seq<char>, i: nat): (e: nat)
    requires i <= |s|
    ensures i <= e <= |s| && forall k :: i <= k < e ==> IsDigit(s[k])
    ensures e < |s| ==> !IsDigit(s[e])
    decreases |s| - i
  {
    if i < |s| && IsDigit(s[i]) then DigitEnd(s, i + 1) else i
  }

  /** tolower() in the C locale. */
  function Lower(c: char): char {
    if 'A' <= c <= 'Z' then (c as int + 32) as char else c
  }

  /** strcasecmp(a, b) == 0 for NUL-free a and b: the same length and the
      same byte at every index after case folding. */
  predicate EqualIgnoreCase(a: seq<char>, b: seq<char>): (r: bool)
    ensures r <==> |a| == |b| && forall k :: 0 <= k < |a| ==> Lower(a[k]) == Lower(b[k])
  {
    |a| == |b| && (SameLowerFromAll(a, b, 0); SameLowerFrom(a, b, 0))
  }

  /** The bytes from `i` on agree after case folding. */
  predicate SameLowerFrom(a: seq<char>, b: seq<char>, i: nat)
    requires |a| == |b| && i <= |a|
    decreases |a| - i
  {
    i == |a| || (Lower(a[i]) == Lower(b[i]) && SameLowerFrom(a, b, i + 1))
  }

  /** strncasecmp(s, p, |p|) == 0 for NUL-free s and p: a shorter s meets
      its terminating NUL where p still has a byte, and differs. */
  predicate HasPrefixIgnoreCase(s: seq<char>, p: seq<char>): (r: bool)
    ensures r <==> |s| >= |p| && forall k :: 0 <= k < |p| ==> Lower(s[k]) == Lower(p[k])
  {
    |s| >= |p| && EqualIgnoreCase(s[..|p|], p)
  }

  /** Agreeing at every index from `i` on is SameLowerFrom(a, b, i). */
  lemma {:induction false} SameLowerFromAll(a: seq<char>, b: seq<char>, i: nat)
    requires |a| == |b| && i <= |a|
    ensures SameLowerFrom(a, b, i) <==> forall k :: i <= k < |a| ==> Lower(a[k]) == Lower(b[k])
    decreases |a| - i
  {
    if i < |a| {
      SameLowerFromAll(a, b, i + 1);
    }
  }

  /** Case folding never turns a blank into a non-blank or back. */
  lemma EqualIgnoreCaseKeepsNoBlank(a: seq<char>, b: seq<char>)
    requires EqualIgnoreCase(a, b) && NoBlank(b)
    ensures NoBlank(a)
  {
    forall k | 0 <= k < |a| ensures !IsBlank(a[k]) {
      assert Lower(a[k]) == Lower(b[k]);
    }
  }

  /** The number a run of decimal digits spells. */
  function DigitsValue(d: seq<char>): nat
    requires forall k :: 0 <= k < |d| ==> IsDigit(d[k])
  {
    if d == [] then 0
    else
      assert IsDigit(d[|d| - 1]);
      DigitsValue(d[..|d| - 1]) * 10 + (d[|d| - 1] as int - '0' as int)
  }

  const LONG_MIN: int := -0x8000_0000_0000_0000
  const LONG_MAX: int := 0x7FFF_FFFF_FFFF_FFFF
  const INT_MIN: int := -0x8000_0000
  const INT_MAX: int := 0x7FFF_FFFF

  /** strtol(s, NULL, 10), which glibc's atol calls: leading isspace bytes
      are skipped, then an optional sign, then the decimal digits that
      follow; a value outside the range of long saturates. */
  function Strtol(s: seq<char>): (r: int)
    ensures LONG_MIN <= r <= LONG_MAX
  {
    var t := s[SpaceSpan(s)..];
    var signed := |t| > 0 && (t[0] == '-' || t[0] == '+');
    var u := if signed then t[1..] else t;
    var v := DigitsValue(u[..DigitSpan(u)]);
    var n: int := if signed && t[0] == '-' then -(v as int) else v;
    if n < LONG_MIN then LONG_MIN else if n > LONG_MAX then LONG_MAX else n
  }

  /** The conversion of a wider integer to a 32-bit `int`: reduction
      modulo 2^32 into [INT_MIN, INT_MAX]. */
  function Int32(x: int): (r: int)
    ensures INT_MIN <= r <= INT_MAX
    ensures (x - r) % 0x1_0000_0000 == 0
    ensures INT_MIN <= x <= INT_MAX ==> r == x
  {
    var m := x % 0x1_0000_0000;
    if m > INT_MAX then m - 0x1_0000_0000 else m
  }

  function DigitChar(d: nat): (c: char)
    requires d < 10
    ensures IsDigit(c)
  {
    ('0' as int + d) as char
  }

  /** The decimal digits of n, most significant first, without leading
      zeros. */
  function Digits(n: nat): (s: seq<char>)
    ensures |s| > 0 && forall k :: 0 <= k < |s| ==> IsDigit(s[k])
  {
    if n < 10 then [DigitChar(n)] else Digits(n / 10) + [DigitChar(n % 10)]
  }

  /** printf's %d: a minus sign exactly for a negative number, then
      decimal digits only. */
  function Decimal(n: int): (r: seq<char>)
    ensures |r| > 0 && (r[0] == '-' <==> n < 0)
    ensures forall k :: 0 < k < |r| ==> IsDigit(r[k])
    ensures n >= 0 ==> IsDigit(r[0])
  {
    if n < 0 then ['-'] + Digits(-n) else Digits(n)
  }

  /** Reading back the digits that Digits writes gives the number. */
  lemma {:induction false} DigitsValueOfDigits(n: nat)
    ensures DigitsValue(Digits(n)) == n
  {
    if n >= 10 {
      var d := Digits(n);
      assert d[..|d| - 1] == Digits(n / 10);
      DigitsValueOfDigits(n / 10);
    }
  }

  /** Round trip: strtol reads back what %d wrote, for every long. */
  lemma StrtolOfDecimal(n: int)
    requires LONG_MIN <= n <= LONG_MAX
    ensures Strtol(Decimal(n)) == n
  {
    var s := Decimal(n);
    var m: nat := if n < 0 then -n else n;
    var d := Digits(m);
    assert SpaceSpan(s) == 0 by {
      assert s[0] == '-' || IsDigit(s[0]);
    }
    assert s[0..] == s;
    var u := if n < 0 then s[1..] else s;
    assert u == d;
    assert DigitSpan(d) == |d|;
    assert d[..|d|] == d;
    DigitsValueOfDigits(m);
  }

  /** Round trip through a 32-bit `int`: atol of a %d-formatted int, stored
      in an int, is that int. */
  lemma AtolOfDecimal(n: int)
    requires INT_MIN <= n <= INT_MAX
    ensures Int32(Strtol(Decimal(n))) == n
  {
    StrtolOfDecimal(n);
  }

  /** %d of a number below 10^k needs at most k digits. */
  lemma {:induction false} DigitsLength(n: nat, k: nat, bound: nat)
    requires 1 <= k && bound == Pow10(k) && n < bound
    ensures |Digits(n)| <= k
  {
    if n >= 10 {
      DigitsLength(n / 10, k - 1, Pow10(k - 1));
    }
  }

  function Pow10(k: nat): (p: nat)
    ensures p >= 1
  {
    if k == 0 then 1 else 10 * Pow10(k - 1)
  }

  /** %d of any 32-bit int takes at most 11 bytes. */
  lemma DecimalLength(n: int)
    requires INT_MIN <= n <= INT_MAX
    ensures |Decimal(n)| <= 11
  {
    var m: nat := if n < 0 then -n else n;
    assert Pow10(10) == 10000000000;
    DigitsLength(m, 10, Pow10(10));
  }
}
