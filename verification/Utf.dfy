/** The UTF-8 and UTF-16 converters of src/filemanager.cpp (the Windows branch, with
    16-bit words). Bytes and words are numbers; masks and shifts by powers of two are
    written as remainders, quotients and multiples. */
module Utf {
  import opened Basics

  type word = x: int | 0 <= x < 0x1_0000
  type code = x: int | 0 <= x < 0x11_0000

  // ---------- one character ----------

  const CP1252: seq<code> := [
    0x20ac, 0x0081, 0x201a, 0x0192, 0x201e, 0x2026, 0x2020, 0x2021,
    0x02c6, 0x2030, 0x0160, 0x2039, 0x0152, 0x008d, 0x017d, 0x008f,
    0x0090, 0x2018, 0x2019, 0x201c, 0x201d, 0x2022, 0x2013, 0x2014,
    0x02dc, 0x2122, 0x0161, 0x203a, 0x0153, 0x009d, 0x017e, 0x0178]

  /** `(b & 0xc0) == 0x80`. */
  predicate Continuation(b: byte) {
    0x80 <= b < 0xc0
  }

  datatype Decoded = Decoded(ucs: code, len: nat)

  /** The code that the payload bits of two, three or four bytes spell. */
  function Two(a: int, b: int): (r: int)
    ensures 0 <= r < 0x800
  {
    a % 0x20 * 0x40 + b % 0x40
  }

  function Three(a: int, b: int, c: int): (r: int)
    ensures 0 <= r < 0x1_0000
  {
    a % 0x10 * 0x1000 + b % 0x40 * 0x40 + c % 0x40
  }

  function Four(a: int, b: int, c: int, d: int): (r: int)
    ensures 0xf0 <= a < 0xf4 || (a == 0xf4 && 0x80 <= b < 0x90) ==> 0 <= r < 0x11_0000
  {
    a % 8 * 0x4_0000 + b % 0x40 * 0x1000 + c % 0x40 * 0x40 + d % 0x40
  }

  /** The code that a surrogate pair spells. */
  function Paired(high: int, low: int): (r: int)
    ensures 0x1_0000 <= r < 0x11_0000
  {
    0x1_0000 + high % 0x400 * 0x400 + low % 0x400
  }

  /** utf8decode on the bytes up to `end`; a malformed sequence yields its first byte,
      through the CP1252 table where that applies. */
  function Utf8Decode(p: seq<byte>): (r: Decoded)
    requires p != []
    ensures 1 <= r.len <= 4 && r.len <= |p|
  {
    var c := p[0];
    var fail := Decoded(c, 1);
    if c < 0x80 then fail
    else if c < 0xa0 then Decoded(CP1252[c - 0x80], 1)
    else if c < 0xc2 then fail
    else if |p| < 2 || !Continuation(p[1]) then fail
    else if c < 0xe0 then Decoded(Two(c, p[1]), 2)
    else if c < 0xf0 then
      if c == 0xe0 && p[1] < 0xa0 then fail
      else if |p| < 3 || !Continuation(p[2]) then fail
      else Decoded(Three(c, p[1], p[2]), 3)
    else if c < 0xf5 then
      if (c == 0xf0 && p[1] < 0x90) || (c == 0xf4 && p[1] > 0x8f) then fail
      else if |p| < 4 || !Continuation(p[2]) || !Continuation(p[3]) then fail
      else Decoded(Four(c, p[1], p[2], p[3]), 4)
    else fail
  }

  predicate High(w: word) {
    0xd800 <= w < 0xdc00
  }

  predicate Low(w: word) {
    0xdc00 <= w < 0xe000
  }

  /** One or two words for a character. */
  function Words(ucs: code): (r: seq<word>)
    ensures 1 <= |r| <= 2
    ensures |r| == 2 ==> High(r[0]) && Low(r[1])
  {
    if ucs < 0x1_0000 then [ucs]
    else [(ucs - 0x1_0000) / 0x400 % 0x400 + 0xd800, ucs % 0x400 + 0xdc00]
  }

  /** The character that starts at the first word. */
  function Unit(w: seq<word>): (r: Decoded)
    requires w != []
    ensures 1 <= r.len <= 2 && r.len <= |w|
  {
    if High(w[0]) && |w| > 1 && Low(w[1])
    then Decoded(Paired(w[0], w[1]), 2)
    else Decoded(w[0], 1)
  }

  /** One to four bytes for a character. */
  function Bytes(ucs: code): (r: seq<byte>)
    ensures 1 <= |r| <= 4
  {
    if ucs < 0x80 then [ucs]
    else if ucs < 0x800 then [0xc0 + ucs / 0x40, 0x80 + ucs % 0x40]
    else if ucs < 0x1_0000 then [0xe0 + ucs / 0x1000, 0x80 + ucs / 0x40 % 0x40, 0x80 + ucs % 0x40]
    else [0xf0 + ucs / 0x4_0000, 0x80 + ucs / 0x1000 % 0x40, 0x80 + ucs / 0x40 % 0x40, 0x80 + ucs % 0x40]
  }

  // ---------- whole strings ----------

  /** The full UTF-16 conversion. */
  function ToWide(s: seq<byte>): (w: seq<word>)
    ensures |w| <= |s|
  {
    if s == [] then []
    else
      var d := Utf8Decode(s);
      assert |Words(d.ucs)| <= d.len;
      Words(d.ucs) + ToWide(s[d.len..])
  }

  /** The full UTF-8 conversion. */
  function FromWide(w: seq<word>): (s: seq<byte>) {
    if w == [] then []
    else
      var u := Unit(w);
      Bytes(u.ucs) + FromWide(w[u.len..])
  }

  // ---------- round trips ----------

  lemma TwoBytes(u: int)
    requires 0x80 <= u < 0x800
    ensures var (a, b) := (0xc0 + u / 0x40, 0x80 + u % 0x40);
            0xc2 <= a < 0xe0 && 0x80 <= b < 0xc0 && Two(a, b) == u
  {
  }

  /** The groups of six bits, from quotients taken one at a time. */
  lemma Sextets(u: int)
    ensures u / 0x1000 == u / 0x40 / 0x40
    ensures u / 0x4_0000 == u / 0x1000 / 0x40
    ensures u == u / 0x40 * 0x40 + u % 0x40
    ensures u / 0x40 == u / 0x1000 * 0x40 + u / 0x40 % 0x40
    ensures u / 0x1000 == u / 0x4_0000 * 0x40 + u / 0x1000 % 0x40
  {
  }

  /** The payload bits of lead and continuation bytes. */
  lemma Payload(x: int)
    ensures 0 <= x < 0x10 ==> (0xe0 + x) % 0x10 == x
    ensures 0 <= x < 8 ==> (0xf0 + x) % 8 == x
    ensures 0 <= x < 0x40 ==> (0x80 + x) % 0x40 == x
  {
  }

  lemma ThreeBytes(u: int)
    requires 0x800 <= u < 0x1_0000
    ensures var (a, b, c) := (0xe0 + u / 0x1000, 0x80 + u / 0x40 % 0x40, 0x80 + u % 0x40);
            && 0xe0 <= a < 0xf0 && 0x80 <= b < 0xc0 && 0x80 <= c < 0xc0
            && (a == 0xe0 ==> b >= 0xa0) && Three(a, b, c) == u
            && (a == 0xed <==> 0xd000 <= u < 0xe000)
            && (a == 0xed ==> (b >= 0xa0 <==> u >= 0xd800) && (b >= 0xb0 <==> u >= 0xdc00))
  {
    Sextets(u);
    var x, y, z := u / 0x1000, u / 0x40 % 0x40, u % 0x40;
    assert 0 <= x < 0x10;
    Payload(x);
    Payload(y);
    Payload(z);
  }

  lemma FourBytes(u: int)
    requires 0x1_0000 <= u < 0x11_0000
    ensures var (a, b, c, d) :=
              (0xf0 + u / 0x4_0000, 0x80 + u / 0x1000 % 0x40, 0x80 + u / 0x40 % 0x40, 0x80 + u % 0x40);
            && 0xf0 <= a < 0xf5 && 0x80 <= b < 0xc0 && 0x80 <= c < 0xc0 && 0x80 <= d < 0xc0
            && (a == 0xf0 ==> b >= 0x90) && (a == 0xf4 ==> b <= 0x8f) && Four(a, b, c, d) == u
  {
    Sextets(u);
    var w, x, y, z := u / 0x4_0000, u / 0x1000 % 0x40, u / 0x40 % 0x40, u % 0x40;
    assert 0 <= w < 5;
    Payload(w);
    Payload(x);
    Payload(y);
    Payload(z);
  }

  /** Decoding undoes encoding for every code point, surrogates included, whatever bytes
      follow. */
  lemma DecodeBytes(ucs: code, rest: seq<byte>)
    ensures Utf8Decode(Bytes(ucs) + rest) == Decoded(ucs, |Bytes(ucs)|)
  {
    hide Two, Three, Four;
    if 0x80 <= ucs < 0x800 {
      TwoBytes(ucs);
    } else if 0x800 <= ucs < 0x1_0000 {
      ThreeBytes(ucs);
    } else if ucs >= 0x1_0000 {
      FourBytes(ucs);
    }
  }

  /** The words of the character that starts a string are those words. */
  lemma WordsOfUnit(w: seq<word>)
    requires w != []
    ensures Words(Unit(w).ucs) == w[..Unit(w).len]
  {
  }

  /** utf8towc gives back what utf8fromwc was given, unpaired surrogates included. */
  lemma {:induction false} WideRoundTrip(w: seq<word>)
    ensures ToWide(FromWide(w)) == w
  {
    if w != [] {
      var u := Unit(w);
      var b, rest := Bytes(u.ucs), FromWide(w[u.len..]);
      DecodeBytes(u.ucs, rest);
      WideRoundTrip(w[u.len..]);
      assert (b + rest)[|b|..] == rest;
      WordsOfUnit(w);
    }
  }

  /** A character as section 4 of RFC 3629 spells it, at the front of `s`; 0 if there is
      none. With `surrogates`, D800 to DFFF are admitted as three-byte characters too. */
  function CharLength(s: seq<byte>, surrogates: bool): (n: nat)
    ensures n <= |s|
  {
    if s == [] then 0
    else if s[0] < 0x80 then 1
    else if |s| >= 2 && 0xc2 <= s[0] <= 0xdf && Continuation(s[1]) then 2
    else if |s| >= 3 && Continuation(s[1]) && Continuation(s[2])
            && (|| (s[0] == 0xe0 && s[1] >= 0xa0)
                || 0xe1 <= s[0] <= 0xec
                || (s[0] == 0xed && (surrogates || s[1] <= 0x9f))
                || 0xee <= s[0] <= 0xef) then 3
    else if |s| >= 4 && Continuation(s[1]) && Continuation(s[2]) && Continuation(s[3])
            && (|| (s[0] == 0xf0 && s[1] >= 0x90)
                || 0xf1 <= s[0] <= 0xf3
                || (s[0] == 0xf4 && s[1] <= 0x8f)) then 4
    else 0
  }

  /** Section 4 of RFC 3629. */
  predicate Rfc3629(s: seq<byte>) {
    s != [] ==> CharLength(s, false) > 0 && Rfc3629(s[CharLength(s, false)..])
  }

  /** A three-byte low surrogate at the front. */
  predicate StartsLow(s: seq<byte>) {
    |s| >= 3 && s[0] == 0xed && s[1] >= 0xb0
  }

  predicate StartsHigh(s: seq<byte>) {
    |s| >= 3 && s[0] == 0xed && 0xa0 <= s[1] < 0xb0
  }

  /** RFC 3629 with single surrogates added: no high one directly before a low one. */
  predicate Generalized(s: seq<byte>) {
    s != [] ==>
      var n := CharLength(s, true);
      n > 0 && Generalized(s[n..]) && !(StartsHigh(s) && StartsLow(s[n..]))
  }

  /** The strict grammar is part of the generalized one. */
  lemma {:induction false} StrictIsGeneralized(s: seq<byte>)
    requires Rfc3629(s)
    ensures Generalized(s)
  {
    if s != [] {
      StrictIsGeneralized(s[CharLength(s, false)..]);
    }
  }

  lemma TwoRead(a: int, b: int)
    requires 0xc2 <= a < 0xe0 && 0x80 <= b < 0xc0
    ensures var u := Two(a, b);
            0x80 <= u < 0x800 && a == 0xc0 + u / 0x40 && b == 0x80 + u % 0x40
  {
  }

  lemma ThreeRead(a: int, b: int, c: int)
    requires 0xe0 <= a < 0xf0 && 0x80 <= b < 0xc0 && 0x80 <= c < 0xc0 && (a == 0xe0 ==> b >= 0xa0)
    ensures var u := Three(a, b, c);
            && 0x800 <= u < 0x1_0000
            && a == 0xe0 + u / 0x1000 && b == 0x80 + u / 0x40 % 0x40 && c == 0x80 + u % 0x40
  {
    var x, y, z := a - 0xe0, b - 0x80, c - 0x80;
    var u := Three(a, b, c);
    Payload(x);
    Payload(y);
    Payload(z);
    assert u == x * 0x1000 + y * 0x40 + z;
    Digit(u, x * 0x40 + y, z);
    Digit(u / 0x40, x, y);
    Sextets(u);
  }

  lemma FourRead(a: int, b: int, c: int, d: int)
    requires 0xf0 <= a < 0xf5 && 0x80 <= b < 0xc0 && 0x80 <= c < 0xc0 && 0x80 <= d < 0xc0
    requires (a == 0xf0 ==> b >= 0x90) && (a == 0xf4 ==> b <= 0x8f)
    ensures var u := Four(a, b, c, d);
            && 0x1_0000 <= u < 0x11_0000
            && a == 0xf0 + u / 0x4_0000 && b == 0x80 + u / 0x1000 % 0x40
            && c == 0x80 + u / 0x40 % 0x40 && d == 0x80 + u % 0x40
  {
    var x, y, z, t := a - 0xf0, b - 0x80, c - 0x80, d - 0x80;
    var u := Four(a, b, c, d);
    Payload(x);
    Payload(y);
    Payload(z);
    Payload(t);
    assert u == x * 0x4_0000 + y * 0x1000 + z * 0x40 + t;
    Digit(u, x * 0x1000 + y * 0x40 + z, t);
    Digit(u / 0x40, x * 0x40 + y, z);
    Digit(u / 0x40 / 0x40, x, y);
    Sextets(u);
  }

  lemma Digit(u: int, q: int, r: int)
    requires u == q * 0x40 + r && 0 <= r < 0x40
    ensures u / 0x40 == q && u % 0x40 == r
  {
  }

  /** A character of the grammar decodes to a number whose encoding it is. */
  lemma CharDecodes(s: seq<byte>)
    requires s != [] && CharLength(s, true) > 0
    ensures var d := Utf8Decode(s);
            && d.len == CharLength(s, true)
            && Bytes(d.ucs) == s[..d.len]
            && (StartsHigh(s) <==> 0xd800 <= d.ucs < 0xdc00)
            && (StartsLow(s) <==> 0xdc00 <= d.ucs < 0xe000)
  {
    hide Two, Three, Four;
    var n := CharLength(s, true);
    if n == 2 {
      TwoRead(s[0], s[1]);
    } else if n == 3 {
      ThreeRead(s[0], s[1], s[2]);
      ThreeBytes(Three(s[0], s[1], s[2]));
    } else if n == 4 {
      FourRead(s[0], s[1], s[2], s[3]);
    }
  }

  /** Anything else is one byte, read as CP1252 or ISO 8859-1. */
  lemma MalformedDecodes(s: seq<byte>)
    requires s != [] && CharLength(s, true) == 0
    ensures Utf8Decode(s) == Decoded(if s[0] < 0xa0 then CP1252[s[0] - 0x80] else s[0], 1)
  {
  }

  /** What a character contributes to the words is read back as that character. */
  lemma UnitOfWords(ucs: code, rest: seq<word>)
    requires ucs < 0x1_0000 && High(ucs) && rest != [] ==> !Low(rest[0])
    ensures Unit(Words(ucs) + rest) == Decoded(ucs, |Words(ucs)|)
  {
  }

  lemma FirstWordLow(s: seq<byte>)
    requires s != [] && CharLength(s, true) > 0
    ensures ToWide(s) != [] && (Low(ToWide(s)[0]) <==> StartsLow(s))
  {
    CharDecodes(s);
  }

  /** The first character of a generalized string, as bytes and as words. */
  lemma FirstChar(s: seq<byte>)
    requires s != [] && Generalized(s)
    ensures var d := Utf8Decode(s);
            var tail := s[d.len..];
            && Generalized(tail) && Bytes(d.ucs) == s[..d.len]
            && Unit(Words(d.ucs) + ToWide(tail)) == Decoded(d.ucs, |Words(d.ucs)|)
  {
    hide Utf8Decode, CharLength, Words, Unit, Bytes, StartsHigh, StartsLow, ToWide;
    CharDecodes(s);
    var d := Utf8Decode(s);
    var tail := s[d.len..];
    if tail != [] {
      FirstWordLow(tail);
    }
    UnitOfWords(d.ucs, ToWide(tail));
  }

  lemma {:induction false} BytesRoundTrip(s: seq<byte>)
    requires Generalized(s)
    ensures FromWide(ToWide(s)) == s
  {
    hide *;
    if s == [] {
      EmptyRoundTrip();
    } else {
      FirstChar(s);
      var d := Utf8Decode(s);
      var tail := s[d.len..];
      BytesRoundTrip(tail);
      WideOfChar(s);
      NarrowOfUnit(Words(d.ucs), ToWide(tail), d.ucs);
      assert s[..d.len] + tail == s;
    }
  }

  lemma EmptyRoundTrip()
    ensures FromWide(ToWide([])) == []
  {
  }

  lemma WideOfChar(s: seq<byte>)
    requires s != []
    ensures ToWide(s) == Words(Utf8Decode(s).ucs) + ToWide(s[Utf8Decode(s).len..])
  {
  }

  lemma NarrowOfUnit(first: seq<word>, rest: seq<word>, ucs: code)
    requires first != [] && Unit(first + rest) == Decoded(ucs, |first|)
    ensures FromWide(first + rest) == Bytes(ucs) + FromWide(rest)
  {
  }

  /** What utf8fromwc writes follows the generalized grammar. */
  lemma {:induction false} FromWideGeneralized(w: seq<word>)
    ensures Generalized(FromWide(w))
    ensures w != [] ==> FromWide(w) != [] && (StartsLow(FromWide(w)) <==> Low(w[0]))
  {
    if w != [] {
      var u := Unit(w);
      FromWideGeneralized(w[u.len..]);
      var rest := FromWide(w[u.len..]);
      BytesAreChar(u.ucs, rest);
      assert (Bytes(u.ucs) + rest)[|Bytes(u.ucs)|..] == rest;
    }
  }

  lemma BytesAreChar(ucs: code, rest: seq<byte>)
    ensures var s := Bytes(ucs) + rest;
            && CharLength(s, true) == |Bytes(ucs)|
            && (StartsHigh(s) <==> 0xd800 <= ucs < 0xdc00)
            && (StartsLow(s) <==> 0xdc00 <= ucs < 0xe000)
  {
    hide Two, Three, Four;
    if 0x80 <= ucs < 0x800 {
      TwoBytes(ucs);
    } else if 0x800 <= ucs < 0x1_0000 {
      ThreeBytes(ucs);
    } else if ucs >= 0x1_0000 {
      FourBytes(ucs);
    }
  }

  /** Converting to words and back gives the same bytes exactly for strings of the
      generalized grammar. */
  lemma ByteRoundTripExactly(s: seq<byte>)
    ensures FromWide(ToWide(s)) == s <==> Generalized(s)
  {
    if Generalized(s) {
      BytesRoundTrip(s);
    }
    FromWideGeneralized(ToWide(s));
  }

  lemma Rfc3629RoundTrip(s: seq<byte>)
    requires Rfc3629(s)
    ensures FromWide(ToWide(s)) == s
  {
    StrictIsGeneralized(s);
    BytesRoundTrip(s);
  }

  // ---------- the numbers behind the encodings ----------

  /** Section 3 of RFC 3629: the number that a well-formed character spells. */
  function Spelled(s: seq<int>): int
    requires 1 <= |s| <= 4
  {
    match |s|
    case 1 => s[0]
    case 2 => (s[0] - 0xc0) * 64 + (s[1] - 0x80)
    case 3 => (s[0] - 0xe0) * 4096 + (s[1] - 0x80) * 64 + (s[2] - 0x80)
    case _ => (s[0] - 0xf0) * 262144 + (s[1] - 0x80) * 4096 + (s[2] - 0x80) * 64 + (s[3] - 0x80)
  }

  lemma CharValue(s: seq<byte>)
    requires s != [] && CharLength(s, true) > 0
    ensures var n := CharLength(s, true);
            n <= 4 && Utf8Decode(s).ucs == Spelled(s[..n])
  {
    hide Two, Three, Four;
    var n := CharLength(s, true);
    if n == 2 {
      TwoValue(s[0], s[1]);
    } else if n == 3 {
      ThreeValue(s[0], s[1], s[2]);
    } else if n == 4 {
      FourValue(s[0], s[1], s[2], s[3]);
    }
  }

  lemma TwoValue(a: int, b: int)
    requires 0xc2 <= a < 0xe0 && 0x80 <= b < 0xc0
    ensures Two(a, b) == (a - 0xc0) * 64 + (b - 0x80)
  {
  }

  lemma ThreeValue(a: int, b: int, c: int)
    requires 0xe0 <= a < 0xf0 && 0x80 <= b < 0xc0 && 0x80 <= c < 0xc0
    ensures Three(a, b, c) == (a - 0xe0) * 4096 + (b - 0x80) * 64 + (c - 0x80)
  {
    Payload(a - 0xe0);
    Payload(b - 0x80);
    Payload(c - 0x80);
  }

  lemma FourValue(a: int, b: int, c: int, d: int)
    requires 0xf0 <= a < 0xf5 && 0x80 <= b < 0xc0 && 0x80 <= c < 0xc0 && 0x80 <= d < 0xc0
    ensures Four(a, b, c, d) == (a - 0xf0) * 262144 + (b - 0x80) * 4096 + (c - 0x80) * 64 + (d - 0x80)
  {
    Payload(a - 0xf0);
    Payload(b - 0x80);
    Payload(c - 0x80);
    Payload(d - 0x80);
  }

  /** Section 2.2 of RFC 2781: the number that a surrogate pair spells; other words stand for
      themselves. */
  lemma UnitValue(w: seq<word>)
    requires w != []
    ensures var high: int := w[0];
            if 0xd800 <= high <= 0xdbff && |w| > 1 && 0xdc00 <= w[1] <= 0xdfff then
              var low: int := w[1];
              Unit(w).len == 2 && Unit(w).ucs == 0x10000 + (high - 0xd800) * 1024 + (low - 0xdc00)
            else Unit(w) == Decoded(w[0], 1)
  {
    if High(w[0]) {
      LowBits(w[0], 0xd800);
      if |w| > 1 && Low(w[1]) {
        LowBits(w[1], 0xdc00);
      }
    }
  }

  lemma LowBits(x: int, base: int)
    requires (base == 0xd800 || base == 0xdc00) && base <= x < base + 0x400
    ensures x % 0x400 == x - base
  {
  }

  /** The table for bytes 80 to 9f has no number twice; five bytes stand for themselves, the
      others for characters beyond ff. */
  lemma TableOneToOne()
    ensures |CP1252| == 32
    ensures forall i, j :: 0 <= i < j < |CP1252| ==> CP1252[i] != CP1252[j]
    ensures forall i :: 0 <= i < |CP1252| ==>
              if i in {0x01, 0x0d, 0x0f, 0x10, 0x1d} then CP1252[i] == 0x80 + i else CP1252[i] > 0xff
  {
  }
}
