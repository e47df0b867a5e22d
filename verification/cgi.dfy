/**
 * The CGI string helpers of src/gifsave/gifgraph.c: `unescape` and `x2c`
 * (percent-decoding, section 2.1 of RFC 3986) and the `isempty`,
 * `strninit`, `strsqueeze` and `trimwhite` macros.
 *
 * A C string is its contents up to the terminating NUL, or the null
 * pointer. Characters are compared in the "C" locale: `isprint` holds for
 * ' ' .. '~' only and `isxdigit` for 0-9, a-f and A-F.
 */
module Cgi {
  /** A `char *` argument: the null pointer or the characters before the NUL. */
  datatype CStr = Null | Str(s: string)

  const Nul: char := '\0'

  /** The contents of a C string hold no NUL. */
  predicate NoNul(s: string)
  {
    forall k :: 0 <= k < |s| ==> s[k] != Nul
  }

  /**
   * `isprint` in the "C" locale. The hex digits are printable and NUL is
   * not, so blanking never alters the digits of an escape and never ends
   * the string early.
   */
  predicate IsPrint(c: char)
    ensures IsHexDigit(c) ==> IsPrint(c)
    ensures IsPrint(c) ==> c != Nul
  {
    ' ' <= c <= '~'
  }

  /** `isxdigit`. */
  predicate IsHexDigit(c: char)
  {
    '0' <= c <= '9' || 'a' <= c <= 'f' || 'A' <= c <= 'F'
  }

  /** The value of a hex digit of either case. */
  function HexValue(c: char): (v: nat)
    requires IsHexDigit(c)
    ensures v < 16
  {
    if '0' <= c <= '9' then c as int - '0' as int
    else if 'a' <= c <= 'f' then c as int - 'a' as int + 10
    else c as int - 'A' as int + 10
  }

  /** The upper-case hex digit of a value below 16. */
  function HexDigit(v: nat): (c: char)
    requires v < 16
    ensures IsHexDigit(c) && HexValue(c) == v
  {
    "0123456789ABCDEF"[v]
  }

  /** `toupper` in the "C" locale. */
  function ToUpper(c: char): char
  {
    if 'a' <= c <= 'z' then (c as int - 32) as char else c
  }

  /** `what & 0xdf` on a character code below 256: bit 5 cleared. */
  function ClearBit5(v: nat): nat
  {
    if v / 32 % 2 == 1 then v - 32 else v
  }

  /** The value `x2c` gives one upper-cased digit. */
  function DigitOf(c: char): int
  {
    if c >= 'A' then (ClearBit5(c as int) - 'A' as int) + 10 else c as int - '0' as int
  }

  /** Reduction to a signed 8-bit `char`. */
  function ToChar8(v: int): int
  {
    (v + 128) % 256 - 128
  }

  /** `x2c`'s value of an upper-cased hex digit is the digit's value. */
  lemma DigitOfHex(c: char)
    requires IsHexDigit(c)
    ensures DigitOf(ToUpper(c)) == HexValue(c)
  {
    if 'a' <= c <= 'f' {
      assert ToUpper(c) as int == c as int - 32;
    }
  }

  /** 16*h0 + h1 computed in signed 8-bit `char` arithmetic is the same byte. */
  lemma Char8Arithmetic(h0: nat, h1: nat)
    requires h0 < 16 && h1 < 16
    ensures ToChar8(ToChar8(h0 * 16) + h1) % 256 == 16 * h0 + h1
  {
    var v := 16 * h0 + h1;
    if h0 < 8 {
      assert ToChar8(h0 * 16) == h0 * 16;
      assert ToChar8(v) == v;
    } else {
      assert ToChar8(h0 * 16) == h0 * 16 - 256;
      assert ToChar8(v - 256) == v - 256;
    }
  }

  /**
   * `x2c`: the character coded by two hex digits of either case, the high
   * digit first. The source computes it in 8-bit `char` arithmetic; the
   * byte is the same.
   */
  function X2c(d0: char, d1: char): (c: char)
    requires IsHexDigit(d0) && IsHexDigit(d1)
    ensures c as int == 16 * HexValue(d0) + HexValue(d1)
  {
    DigitOfHex(d0);
    DigitOfHex(d1);
    Char8Arithmetic(HexValue(d0), HexValue(d1));
    var digit := ToChar8(DigitOf(ToUpper(d0)) * 16);
    var digit' := ToChar8(digit + DigitOf(ToUpper(d1)));
    (digit' % 256) as char
  }

  /** `isprint` filter of `unescape`: a control character becomes a blank. */
  function Clean(c: char): char
  {
    if IsPrint(c) then c else ' '
  }

  /** Whether s starts with a percent sign followed by two hex digits. */
  predicate StartsEscape(s: string)
  {
    |s| >= 3 && Clean(s[0]) == '%' && IsHexDigit(s[1]) && IsHexDigit(s[2])
  }

  /**
   * What `unescape` leaves in the string, read left to right: each `%`
   * followed by two hex digits becomes the character they code, every
   * other character is copied, blanked when it is not printable. The
   * decoded characters are not read again.
   */
  function Decode(s: string): string
  {
    if |s| == 0 then []
    else if StartsEscape(s) then [X2c(s[1], s[2])] + Decode(s[3..])
    else [Clean(s[0])] + Decode(s[1..])
  }

  /** The number of escape sequences `unescape` decodes in s. */
  function Escapes(s: string): nat
  {
    if |s| == 0 then 0
    else if StartsEscape(s) then 1 + Escapes(s[3..])
    else Escapes(s[1..])
  }

  /** Each decoded sequence turns three characters into one. */
  lemma {:induction false} DecodeLength(s: string)
    ensures |Decode(s)| == |s| - 2 * Escapes(s)
    decreases |s|
  {
    if |s| > 0 {
      if StartsEscape(s) {
        DecodeLength(s[3..]);
      } else {
        DecodeLength(s[1..]);
      }
    }
  }

  /** Without a percent sign, decoding only blanks the control characters. */
  lemma {:induction false} DecodeNoPercent(s: string)
    requires forall k :: 0 <= k < |s| ==> s[k] != '%'
    ensures |Decode(s)| == |s|
    ensures forall k :: 0 <= k < |s| ==> Decode(s)[k] == Clean(s[k])
    decreases |s|
  {
    if |s| > 0 {
      DecodeNoPercent(s[1..]);
    }
  }

  /**
   * Decoded output is not scanned again: an escape at the front decodes on
   * its own to the one character it codes, and the rest of the string is
   * decoded as if the escape were not there, whatever that character is.
   */
  lemma NoRescan(s: string)
    requires StartsEscape(s)
    ensures Decode(s[..3]) == [X2c(s[1], s[2])]
    ensures Decode(s) == Decode(s[..3]) + Decode(s[3..])
  {
    assert StartsEscape(s[..3]) && s[..3][3..] == [];
  }

  /** An instance of `NoRescan`: "%2541" becomes "%41", not "A". */
  lemma NoRescanExample()
    ensures Decode("%2541") == "%41"
    ensures Decode("%41") == "A"
  {
    assert StartsEscape("%2541");
    assert "%2541"[3..] == "41";
    assert !StartsEscape("41") && !StartsEscape("1");
    assert "41"[1..] == "1";
    assert StartsEscape("%41");
    assert "%41"[3..] == "";
  }

  /**
   * A percent sign not followed by two hex digits, at the end of the
   * string included, is copied as it is and decoding resumes after it.
   */
  lemma LiteralPercent(s: string)
    requires |s| >= 1 && s[0] == '%'
    requires !(|s| >= 3 && IsHexDigit(s[1]) && IsHexDigit(s[2]))
    ensures Decode(s) == ['%'] + Decode(s[1..])
  {
    assert !StartsEscape(s);
  }

  /** Instances of `LiteralPercent`: "%4" and "%G1" come out unchanged. */
  lemma LiteralPercentExamples()
    ensures Decode("%4") == "%4"
    ensures Decode("%G1") == "%G1"
  {
    assert !StartsEscape("%4") && !StartsEscape("4");
    assert "%4"[1..] == "4";
    assert !StartsEscape("%G1") && !StartsEscape("G1") && !StartsEscape("1");
    assert "%G1"[1..] == "G1" && "G1"[1..] == "1";
  }

  /** The percent-encoding of a character with code below 256: `%` and two upper-case hex digits. */
  function EncodeChar(c: char): (e: string)
    requires c as int < 256
    ensures |e| == 3 && StartsEscape(e) && X2c(e[1], e[2]) == c
  {
    ['%', HexDigit(c as int / 16), HexDigit(c as int % 16)]
  }

  /** The percent-encoding of every character of s. */
  function Encode(s: string): (e: string)
    requires forall k :: 0 <= k < |s| ==> s[k] as int < 256
    ensures |e| == 3 * |s|
  {
    if |s| == 0 then [] else EncodeChar(s[0]) + Encode(s[1..])
  }

  /** Decoding undoes percent-encoding. */
  lemma {:induction false} DecodeEncode(s: string)
    requires forall k :: 0 <= k < |s| ==> s[k] as int < 256
    ensures Decode(Encode(s)) == s
    decreases |s|
  {
    if |s| > 0 {
      var e := Encode(s);
      assert e == EncodeChar(s[0]) + Encode(s[1..]);
      assert e[..3] == EncodeChar(s[0]) && e[3..] == Encode(s[1..]);
      DecodeEncode(s[1..]);
    }
  }

  /** Decoding from index y consumes one token: an escape sequence or one character. */
  lemma DecodeFrom(s: string, y: nat)
    requires y < |s|
    ensures StartsEscape(s[y..]) ==> y + 3 <= |s| && Decode(s[y..]) == [X2c(s[y + 1], s[y + 2])] + Decode(s[y + 3..])
    ensures !StartsEscape(s[y..]) ==> Decode(s[y..]) == [Clean(s[y])] + Decode(s[y + 1..])
  {
    var rest := s[y..];
    if StartsEscape(rest) {
      assert rest[3..] == s[y + 3..];
    } else {
      assert rest[1..] == s[y + 1..];
    }
  }

  /**
   * One turn of `unescape`'s loop: blank the character under the read
   * cursor y if it is not printable, copy it to the write cursor x, and if
   * it is a `%` with two hex digits after it, store their character instead
   * and move y past them.
   */
  method UnescapeStep(s: string, buf: seq<char>, x: nat, y: nat) returns (buf': seq<char>, x': nat, y': nat)
    requires NoNul(s) && x <= y < |s| && |buf| == |s| + 1
    requires buf[y..] == s[y..] + [Nul]
    ensures x' == x + 1 && y < y' <= |s| && x' <= y' && |buf'| == |s| + 1
    ensures buf'[y'..] == s[y'..] + [Nul]
    ensures buf'[..x'] + Decode(s[y'..]) == buf[..x] + Decode(s[y..])
  {
    DecodeFrom(s, y);
    assert buf[y] == s[y] && buf[y + 1] == (s + [Nul])[y + 1];
    buf' := buf;
    if !IsPrint(buf'[y]) {
      buf' := buf'[y := ' '];
    }
    buf' := buf'[x := buf'[y]];
    y' := y;
    if buf'[x] == '%' && IsHexDigit(buf'[y + 1]) && IsHexDigit(buf'[y + 2]) {
      assert buf'[y + 1] == s[y + 1] && buf'[y + 2] == s[y + 2];
      assert StartsEscape(s[y..]);
      buf' := buf'[x := X2c(buf'[y + 1], buf'[y + 2])];
      y' := y + 2;
    } else {
      assert !StartsEscape(s[y..]) by {
        if y + 3 <= |s| {
          assert buf'[y + 1] == s[y + 1] && buf'[y + 2] == s[y + 2];
        }
      }
    }
    assert buf'[..x + 1] == buf[..x] + [buf'[x]];
    x', y' := x + 1, y' + 1;
    SuffixKept(s, buf, buf', y, y');
  }

  /** Writes below y' leave the suffix from y' as it was. */
  lemma SuffixKept(s: string, buf: seq<char>, buf': seq<char>, y: nat, y': nat)
    requires y <= y' <= |s| && |buf| == |buf'| == |s| + 1
    requires buf[y..] == s[y..] + [Nul]
    requires forall k :: y' <= k < |buf| ==> buf'[k] == buf[k]
    ensures buf'[y'..] == s[y'..] + [Nul]
  {
    assert buf[y'..] == (buf[y..])[y' - y..];
    assert (s[y..] + [Nul])[y' - y..] == s[y'..] + [Nul];
    assert buf'[y'..] == buf[y'..];
  }

  /**
   * `unescape` on the buffer holding s and its NUL: a write cursor x
   * trails the read cursor y. The first n cells end up holding Decode(s)
   * and cell n the new terminator; n is returned.
   */
  method UnescapeBuffer(s: string) returns (buf: seq<char>, n: nat)
    requires NoNul(s)
    ensures |buf| == |s| + 1
    ensures n <= |s| && n == |Decode(s)| && buf[..n] == Decode(s) && buf[n] == Nul
  {
    buf := s + [Nul];
    var x, y := 0, 0;
    while buf[y] != Nul
      invariant 0 <= x <= y <= |s| && |buf| == |s| + 1
      invariant buf[y..] == s[y..] + [Nul]
      invariant buf[..x] + Decode(s[y..]) == Decode(s)
      decreases |s| - y
    {
      assert buf[y] == (s[y..] + [Nul])[0];
      buf, x, y := UnescapeStep(s, buf, x, y);
    }
    assert buf[y] == (s[y..] + [Nul])[0];
    assert s[y..] == [];
    buf := buf[x := Nul];
    n := x;
  }

  /** `unescape`: the null pointer gives 0; otherwise the string is decoded in place and its new length returned. */
  method Unescape(instr: CStr) returns (instr': CStr, n: int)
    requires instr.Str? ==> NoNul(instr.s)
    ensures instr.Null? ==> instr' == Null && n == 0
    ensures instr.Str? ==> instr' == Str(Decode(instr.s)) && n == |instr.s| - 2 * Escapes(instr.s)
  {
    if instr.Null? {
      return Null, 0;
    }
    var buf, len := UnescapeBuffer(instr.s);
    DecodeLength(instr.s);
    instr', n := Str(buf[..len]), len;
  }

  /** `isempty`: the null pointer or a string whose first character is the NUL. */
  function IsEmpty(str: CStr): (r: bool)
    ensures r <==> str == Null || str == Str([])
  {
    str.Null? || |str.s| == 0
  }

  /**
   * `strsqueeze(s, n)` for n >= 0: n == 0 and an empty string leave s
   * alone; otherwise the first n characters go, or all of them when n is
   * at least the length.
   */
  function StrSqueeze(str: CStr, n: nat): (r: CStr)
    ensures str.Null? ==> r == Null
    ensures str.Str? ==> r.Str? && r.s == str.s[if n < |str.s| then n else |str.s|..]
  {
    if n == 0 then str
    else if IsEmpty(str) then str
    else if n >= |str.s| then Str([])
    else Str(str.s[n..])
  }

  /** Squeezing twice squeezes the sum. */
  lemma StrSqueezeTwice(str: CStr, a: nat, b: nat)
    ensures StrSqueeze(StrSqueeze(str, a), b) == StrSqueeze(str, a + b)
  {
    if str.Str? {
      var s := str.s;
      var s' := StrSqueeze(str, a).s;
      if a + b < |s| {
        assert s'[b..] == s[a + b..];
      }
    }
  }

  /**
   * `strninit(target, source, n)`: on a non-null target with n >= 0 the
   * target becomes the first n characters of source (all of it when it is
   * shorter), or empty when n is 0 or source is null; otherwise nothing
   * happens.
   */
  function StrnInit(target: CStr, source: CStr, n: int): (r: CStr)
    ensures target.Null? || n < 0 ==> r == target
    ensures target.Str? && n >= 0 ==> r.Str? && |r.s| <= n
    ensures target.Str? && n > 0 && source.Str? ==>
      r.s <= source.s && |r.s| == (if n < |source.s| then n else |source.s|)
    ensures target.Str? && n >= 0 && (n == 0 || source.Null?) ==> r == Str([])
  {
    if target.Str? && n >= 0 then
      if n > 0 && source.Str? then
        Str(source.s[..if n < |source.s| then n else |source.s|])
      else Str([])
    else target
  }

  /** The blanks `trimwhite` removes: `WHITESPACE`. */
  predicate IsWhite(c: char)
  {
    c == ' ' || c == '\t' || c == '\n' || c == '\r' || c == '\U{000C}' || c == '\U{000B}'
  }

  /** s with its trailing blanks removed. */
  function TrimRight(s: string): (t: string)
    ensures t <= s
  {
    if |s| > 0 && IsWhite(s[|s| - 1]) then TrimRight(s[..|s| - 1]) else s
  }

  /** s with its leading blanks removed. */
  function TrimLeft(s: string): string
  {
    if |s| > 0 && IsWhite(s[0]) then TrimLeft(s[1..]) else s
  }

  /** The reference trim: leading and trailing blanks removed. */
  function Trimmed(s: string): string
  {
    TrimLeft(TrimRight(s))
  }

  /**
   * The trimmed string is the slice s[a..b] whose outside is all blanks;
   * it is empty or starts and ends on a non-blank.
   */
  lemma {:induction false} TrimmedSpec(s: string)
    ensures exists a, b ::
      (0 <= a <= b <= |s| && Trimmed(s) == s[a..b] &&
       (forall k :: 0 <= k < a ==> IsWhite(s[k])) &&
       (forall k :: b <= k < |s| ==> IsWhite(s[k])))
    ensures |Trimmed(s)| > 0 ==> !IsWhite(Trimmed(s)[0]) && !IsWhite(Trimmed(s)[|Trimmed(s)| - 1])
  {
    var b := RightEnd(s);
    var r := s[..b];
    var a := LeftStart(r);
    assert Trimmed(s) == s[a..b];
    if |Trimmed(s)| > 0 {
      assert Trimmed(s)[|Trimmed(s)| - 1] == r[b - 1];
    }
  }

  /** Where `TrimRight` cuts s: everything from there on is blank, and the character before it is not. */
  lemma {:induction false} RightEndLemma(s: string)
    ensures TrimRight(s) == s[..|TrimRight(s)|]
    ensures forall k :: |TrimRight(s)| <= k < |s| ==> IsWhite(s[k])
    ensures |TrimRight(s)| > 0 ==> !IsWhite(s[|TrimRight(s)| - 1])
    decreases |s|
  {
    if |s| > 0 && IsWhite(s[|s| - 1]) {
      RightEndLemma(s[..|s| - 1]);
    }
  }

  function RightEnd(s: string): (b: nat)
    ensures b <= |s| && TrimRight(s) == s[..b]
    ensures forall k :: b <= k < |s| ==> IsWhite(s[k])
    ensures b > 0 ==> !IsWhite(s[b - 1])
  {
    RightEndLemma(s);
    |TrimRight(s)|
  }

  /** Where `TrimLeft` cuts s: everything before is blank, and the character there is not. */
  lemma {:induction false} LeftStartLemma(s: string)
    ensures |TrimLeft(s)| <= |s| && TrimLeft(s) == s[|s| - |TrimLeft(s)|..]
    ensures forall k :: 0 <= k < |s| - |TrimLeft(s)| ==> IsWhite(s[k])
    ensures |TrimLeft(s)| > 0 ==> !IsWhite(TrimLeft(s)[0])
    decreases |s|
  {
    if |s| > 0 && IsWhite(s[0]) {
      LeftStartLemma(s[1..]);
      assert s[1..][|s| - 1 - |TrimLeft(s)|..] == s[|s| - |TrimLeft(s)|..];
    }
  }

  function LeftStart(s: string): (a: nat)
    ensures a <= |s| && TrimLeft(s) == s[a..]
    ensures forall k :: 0 <= k < a ==> IsWhite(s[k])
    ensures a < |s| ==> !IsWhite(s[a])
  {
    LeftStartLemma(s);
    |s| - |TrimLeft(s)|
  }

  /** Trimming a trimmed string changes nothing. */
  lemma TrimmedIdempotent(s: string)
    ensures Trimmed(Trimmed(s)) == Trimmed(s)
  {
    var t := Trimmed(s);
    TrimmedSpec(s);
    if |t| > 0 {
      assert TrimRight(t) == t;
      assert TrimLeft(t) == t;
    }
  }

  /**
   * `trimwhite`: blanks from the end are overwritten with NULs until a
   * non-blank, then `strspn` counts the leading blanks and `strsqueeze`
   * drops them.
   */
  method TrimWhite(str: CStr) returns (str': CStr)
    ensures str.Null? ==> str' == Null
    ensures str.Str? ==> str' == Str(Trimmed(str.s))
  {
    if str.Null? {
      return Null;
    }
    var s := str.s;
    var len := |s|;
    assert s[..len] == s;
    while len > 0 && IsWhite(s[len - 1])
      invariant 0 <= len <= |s|
      invariant TrimRight(s[..len]) == TrimRight(s)
      decreases len
    {
      assert s[..len][..len - 1] == s[..len - 1];
      len := len - 1;
    }
    var r := s[..len];
    assert TrimRight(r) == r;
    var lead := 0;
    while lead < len && IsWhite(r[lead])
      invariant 0 <= lead <= len
      invariant TrimLeft(r[lead..]) == TrimLeft(r)
      decreases len - lead
    {
      assert r[lead..][1..] == r[lead + 1..];
      lead := lead + 1;
    }
    assert TrimLeft(r[lead..]) == r[lead..];
    str' := Str(r);
    if lead > 0 {
      str' := StrSqueeze(str', lead);
    }
  }
}
