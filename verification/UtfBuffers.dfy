/** utf8towc and utf8fromwc of src/filemanager.cpp: conversion into a caller's buffer,
    followed by a measuring phase for what did not fit. */
module UtfBuffers {
  import opened Basics
  import opened Utf

  // ---------- utf8towc ----------

  /** A buffer that holds a terminated prefix of `full`: all of it if it fits, otherwise
      all but the last word or two of what there is room for. */
  ghost predicate HoldsPrefix(buffer: seq<int>, full: seq<int>, slack: nat) {
    exists t :: 0 <= t < |buffer| && buffer[t] == 0 && IsCut(buffer, full, t, slack)
  }

  ghost predicate IsCut(buffer: seq<int>, full: seq<int>, t: nat, slack: nat) {
    && t < |buffer| && t <= |full| && buffer[..t] == full[..t]
    && (if |full| < |buffer| then t == |full| else t + slack >= |buffer|)
  }

  /** A buffer after text and terminator were written to its front. */
  function Overlaid(out: seq<int>, before: seq<int>): seq<int>
    requires |out| < |before|
  {
    out + [0] + before[|out| + 1..]
  }

  /** The words that are left in the buffer, with room for that many and a terminator among
      them. */
  function WideWritten(s: seq<byte>, room: nat): (w: seq<word>)
    ensures room > 0 ==> |w| < room
  {
    if s == [] || room == 0 then []
    else
      var d := Utf8Decode(s);
      var n := |Words(d.ucs)|;
      if n >= room then [] else Words(d.ucs) + WideWritten(s[d.len..], room - n)
  }

  /** Converts; the result is the length of the full conversion whatever the room. */
  method Utf8ToWc(src: seq<byte>, dst: array<word>, dstlen: nat) returns (count: nat)
    requires dstlen <= dst.Length
    modifies dst
    ensures count == |ToWide(src)|
    ensures dst[..] == if dstlen == 0 then old(dst[..]) else Overlaid(WideWritten(src, dstlen), old(dst[..]))
    ensures dst[dstlen..] == old(dst[dstlen..])
    ensures dstlen > 0 ==> HoldsPrefix(dst[..dstlen], ToWide(src), 2)
  {
    hide Utf8Decode, Words, ToWide, HoldsPrefix, WideWritten, Overlaid;
    ghost var before := dst[..];
    var p := 0;
    count := 0;
    assert src[0..] == src;
    if dstlen != 0 {
      WideHolds(src, dstlen, before);
      while true
        invariant 0 <= p <= |src| && count < dstlen
        invariant |ToWide(src)| == count + |ToWide(src[p..])|
        invariant WideWritten(src, dstlen) == dst[..count] + WideWritten(src[p..], dstlen - count)
        invariant dst[..][count..] == before[count..]
        decreases |src| - p
      {
        ghost var start, c0 := dst[..], count;
        if p >= |src| {
          NothingLeft(src, p);
          WideEnd(src, p, dstlen - count);
          dst[count] := 0;
          SameTail(start, before, c0, c0 + 1);
          OverlaidSo(before, dst[..], WideWritten(src, dstlen), c0);
          return;
        }
        WideStep(src, p);
        WideCut(src, p, dstlen - count);
        var w: seq<word>;
        w, p := NextWords(src, p);
        SameTail(start, before, c0, c0 + if c0 + |w| < dstlen then |w| else 1);
        var room := Put(dst, dstlen, count, w, 0);
        count := count + |w|;
        if !room {
          OverlaidSo(before, dst[..], WideWritten(src, dstlen), c0);
          break;
        }
        ConcatAssociates(start[..c0], w, WideWritten(src[p..], dstlen - count));
      }
    }
    var more := CountWide(src, p);
    count := count + more;
  }

  /** The words of the character at `p0`, and where the next one starts. */
  method NextWords(src: seq<byte>, p0: nat) returns (w: seq<word>, p: nat)
    requires p0 < |src|
    ensures var d := Utf8Decode(src[p0..]);
            w == Words(d.ucs) && p == p0 + d.len && 1 <= |w| <= 2 && p <= |src|
  {
    if src[p0] < 0x80 {
      return [src[p0]], p0 + 1;
    }
    var d := Utf8Decode(src[p0..]);
    p := p0 + d.len;
    if d.ucs < 0x1_0000 {
      w := [d.ucs];
    } else {
      w := [(d.ucs - 0x1_0000) / 0x400 % 0x400 + 0xd800, d.ucs % 0x400 + 0xdc00];
    }
  }

  /** Writes the units of a character, or the terminator if they do not fit before it. (For
      one unit the source writes first and overwrites it with the terminator.) */
  method Put<T>(dst: array<T>, dstlen: nat, count: nat, b: seq<T>, nul: T) returns (room: bool)
    requires count < dstlen <= dst.Length && 1 <= |b| <= 4
    modifies dst
    ensures room <==> count + |b| < dstlen
    ensures if room then dst[..count + |b|] == old(dst[..count]) + b
                         && dst[..][count + |b|..] == old(dst[..])[count + |b|..]
            else dst[..] == old(dst[..])[count := nul]
  {
    if count + |b| >= dstlen {
      dst[count] := nul;
      return false;
    }
    for k := 0 to |b|
      invariant dst[..count + k] == old(dst[..count]) + b[..k]
      invariant dst[count + k..] == old(dst[count + k..])
    {
      dst[count + k] := b[k];
    }
    room := true;
  }

  /** The second phase: measures the rest. */
  method CountWide(src: seq<byte>, p0: nat) returns (count: nat)
    requires p0 <= |src|
    ensures count == |ToWide(src[p0..])|
  {
    hide Utf8Decode, Words, ToWide;
    var p := p0;
    count := 0;
    while p < |src|
      invariant 0 <= p <= |src|
      invariant count + |ToWide(src[p..])| == |ToWide(src[p0..])|
      decreases |src| - p
    {
      WideStep(src, p);
      if src[p] < 0x80 {
        AsciiWords(src[p..]);
        p := p + 1;
      } else {
        var u := Utf8Decode(src[p..]);
        WordsOf(u.ucs);
        p := p + u.len;
        if u.ucs >= 0x1_0000 {
          count := count + 1;
        }
      }
      count := count + 1;
    }
    NothingLeft(src, p);
  }

  lemma WideCut(src: seq<byte>, p: nat, room: nat)
    requires p < |src| && room > 0
    ensures var d := Utf8Decode(src[p..]);
            var n := |Words(d.ucs)|;
            && p + d.len <= |src|
            && WideWritten(src[p..], room)
               == (if n >= room then [] else Words(d.ucs) + WideWritten(src[p + d.len..], room - n))
  {
    assert src[p..][Utf8Decode(src[p..]).len..] == src[p + Utf8Decode(src[p..]).len..];
  }

  lemma WideEnd(src: seq<byte>, p: nat, room: nat)
    requires p == |src|
    ensures WideWritten(src[p..], room) == []
  {
  }

  lemma OverlaidSo(before: seq<int>, after: seq<int>, out: seq<int>, count: nat)
    requires count < |before| == |after| && |out| == count
    requires after[..count] == out && after[count] == 0 && after[count + 1..] == before[count + 1..]
    ensures after == Overlaid(out, before)
    ensures forall n :: count < n <= |before| ==> after[n..] == before[n..]
  {
    assert after == after[..count] + [after[count]] + after[count + 1..];
    forall n | count < n <= |before|
      ensures after[n..] == before[n..]
    {
      SameTail(after, before, count + 1, n);
    }
  }

  lemma {:induction false} WideFirst(s: seq<byte>, room: nat)
    ensures WideWritten(s, room) <= ToWide(s)
    ensures room > |ToWide(s)| ==> WideWritten(s, room) == ToWide(s)
    ensures |ToWide(s)| >= room ==> |WideWritten(s, room)| + 2 >= room
  {
    hide Words, Utf8Decode;
    if s != [] && room != 0 {
      var d := Utf8Decode(s);
      var n := |Words(d.ucs)|;
      if n < room {
        WideFirst(s[d.len..], room - n);
        assert ToWide(s) == Words(d.ucs) + ToWide(s[d.len..]);
        assert WideWritten(s, room) == Words(d.ucs) + WideWritten(s[d.len..], room - n);
      }
    }
  }

  lemma WideHolds(src: seq<byte>, dstlen: nat, before: seq<int>)
    requires 0 < dstlen <= |before|
    ensures HoldsPrefix(Overlaid(WideWritten(src, dstlen), before)[..dstlen], ToWide(src), 2)
  {
    WideFirst(src, dstlen);
    hide ToWide, WideWritten;
    var out := WideWritten(src, dstlen);
    assert IsCut(Overlaid(out, before)[..dstlen], ToWide(src), |out|, 2);
  }

  lemma NothingLeft(src: seq<byte>, p: nat)
    requires p == |src|
    ensures ToWide(src[p..]) == []
  {
  }

  lemma WideStep(src: seq<byte>, p: nat)
    requires p < |src|
    ensures var d := Utf8Decode(src[p..]);
            p + d.len <= |src| && ToWide(src[p..]) == Words(d.ucs) + ToWide(src[p + d.len..])
  {
    assert src[p..][Utf8Decode(src[p..]).len..] == src[p + Utf8Decode(src[p..]).len..];
  }

  lemma AsciiWords(s: seq<byte>)
    requires s != [] && s[0] < 0x80
    ensures Utf8Decode(s) == Decoded(s[0], 1) && Words(s[0]) == [s[0]]
  {
  }

  lemma WordsOf(ucs: code)
    ensures Words(ucs) == if ucs < 0x1_0000 then [ucs]
                          else [(ucs - 0x1_0000) / 0x400 % 0x400 + 0xd800, ucs % 0x400 + 0xdc00]
  {
  }

  // ---------- utf8fromwc ----------

  /** The measuring phase of utf8fromwc. After reading a high surrogate it tests the word
      after the next one, where the writing phase tests the next. */
  function Measured(w: seq<word>): (n: nat) {
    if w == [] then 0
    else if w[0] < 0x80 then 1 + Measured(w[1..])
    else if w[0] < 0x800 then 2 + Measured(w[1..])
    else if High(w[0]) && |w| >= 3 && Low(w[2]) then 4 + Measured(w[2..])
    else 3 + Measured(w[1..])
  }

  /** How many words the writing phase takes before it stops, with room for that many bytes:
      all of them, or up to and including the character that leaves no room for the
      terminator. */
  function CutPoint(w: seq<word>, room: nat): (r: nat)
    ensures r <= |w|
  {
    if w == [] || room == 0 then 0
    else
      var u := Unit(w);
      var n := |Bytes(u.ucs)|;
      if n >= room then u.len else u.len + CutPoint(w[u.len..], room - n)
  }

  /** The bytes that the writing phase writes, with room for that many and a terminator among
      them. */
  function Written(w: seq<word>, room: nat): (s: seq<byte>)
    ensures room > 0 ==> |s| < room
  {
    if w == [] || room == 0 then []
    else
      var u := Unit(w);
      var n := |Bytes(u.ucs)|;
      if n >= room then [] else Bytes(u.ucs) + Written(w[u.len..], room - n)
  }

  /** The words whose bytes are not written. */
  function Unwritten(w: seq<word>, room: nat): seq<word> {
    if w == [] || room == 0 then w
    else
      var u := Unit(w);
      var n := |Bytes(u.ucs)|;
      if n >= room then w else Unwritten(w[u.len..], room - n)
  }

  /** The whole buffer afterwards: what is written, its terminator, and what was there. */
  function Filled(src: seq<word>, dstlen: nat, before: seq<byte>): seq<byte>
    requires dstlen <= |before|
  {
    if dstlen == 0 then before else Overlaid(Written(src, dstlen), before)
  }

  /** The length that utf8fromwc reports: true up to the cut point, and from there on what
      the measuring phase makes of it. */
  function Reported(src: seq<word>, dstlen: nat): int {
    var r := CutPoint(src, dstlen);
    |FromWide(src)| - |FromWide(src[r..])| + Measured(src[r..])
  }

  /** Converts. If everything fits with its terminator the result is the length of the
      conversion; otherwise a truncated conversion is left in the buffer and the result is
      the reported length, which is at least `dstlen`. */
  method Utf8FromWc(dst: array<byte>, dstlen: nat, src: seq<word>) returns (count: nat)
    requires dstlen <= dst.Length
    modifies dst
    ensures dst[..] == Filled(src, dstlen, old(dst[..]))
    ensures dst[dstlen..] == old(dst[dstlen..])
    ensures dstlen > 0 ==> HoldsPrefix(dst[..dstlen], FromWide(src), 4)
    ensures count == Reported(src, dstlen)
    ensures if |FromWide(src)| < dstlen then count == |FromWide(src)| else count >= dstlen
  {
    hide Utf8Decode, FromWide, Unit, Bytes, HoldsPrefix, Measured, CutPoint, Written, Filled, Overlaid;
    ghost var before := dst[..];
    var i := 0;
    count := 0;
    assert src[0..] == src;
    if dstlen == 0 {
      CutEnd(src, 0, 0);
      NotFilled(src, before);
    } else {
      FilledHolds(src, dstlen, before);
      while true
        invariant 0 <= i <= |src| && count < dstlen
        invariant |FromWide(src)| == count + |FromWide(src[i..])|
        invariant i + CutPoint(src[i..], dstlen - count) == CutPoint(src, dstlen)
        invariant Written(src, dstlen) == dst[..count] + Written(src[i..], dstlen - count)
        invariant dst[..][count..] == before[count..]
        decreases |src| - i
      {
        ghost var start, c0 := dst[..], count;
        if i >= |src| {
          NothingUnread(src, i);
          CutEnd(src, i, dstlen - count);
          dst[count] := 0;
          SameTail(start, before, c0, c0 + 1);
          FilledSo(src, dstlen, before, dst[..], c0);
          return;
        }
        NarrowStep(src, i);
        CutStep(src, i, dstlen - count);
        var b: seq<byte>;
        b, i := NextBytes(src, i);
        SameTail(start, before, c0, c0 + if c0 + |b| < dstlen then |b| else 1);
        var room := Put(dst, dstlen, count, b, 0);
        count := count + |b|;
        if !room {
          FilledSo(src, dstlen, before, dst[..], c0);
          break;
        }
        ConcatAssociates(start[..c0], b, Written(src[i..], dstlen - count));
      }
    }
    var more := CountNarrow(src, i);
    count := count + more;
  }

  /** The second phase: measures the rest. */
  method CountNarrow(src: seq<word>, i0: nat) returns (count: nat)
    requires i0 <= |src|
    ensures count == Measured(src[i0..])
  {
    hide Measured;
    var i := i0;
    count := 0;
    while i < |src|
      invariant i0 <= i <= |src|
      invariant count + Measured(src[i..]) == Measured(src[i0..])
      decreases |src| - i
    {
      MeasuredStep(src, i);
      var ucs := src[i];
      i := i + 1;
      if ucs < 0x80 {
        count := count + 1;
      } else if ucs < 0x800 {
        count := count + 2;
      } else if High(ucs) && i < |src| - 1 && Low(src[i + 1]) {
        i := i + 1;
        count := count + 4;
      } else {
        count := count + 3;
      }
    }
    NothingUnread(src, i);
  }

  /** The encoding of the character at `i0`, and where the next one starts. */
  method NextBytes(src: seq<word>, i0: nat) returns (b: seq<byte>, i: nat)
    requires i0 < |src|
    ensures b == Bytes(Unit(src[i0..]).ucs) && i == i0 + Unit(src[i0..]).len
  {
    hide Unit, Bytes;
    UnitBytes(src, i0);
    i := i0;
    var ucs: int := src[i];
    i := i + 1;
    if ucs < 0x80 {
      b := [ucs];
    } else if ucs < 0x800 {
      b := [0xc0 + ucs / 0x40, 0x80 + ucs % 0x40];
    } else if High(ucs) && i < |src| && Low(src[i]) {
      var ucs2 := src[i];
      i := i + 1;
      ucs := Paired(ucs, ucs2);
      b := [0xf0 + ucs / 0x4_0000, 0x80 + ucs / 0x1000 % 0x40, 0x80 + ucs / 0x40 % 0x40, 0x80 + ucs % 0x40];
    } else {
      b := [0xe0 + ucs / 0x1000, 0x80 + ucs / 0x40 % 0x40, 0x80 + ucs % 0x40];
    }
  }

  lemma NothingUnread(src: seq<word>, i: nat)
    requires i == |src|
    ensures FromWide(src[i..]) == [] && Measured(src[i..]) == 0
  {
  }

  lemma NarrowStep(src: seq<word>, i: nat)
    requires i < |src|
    ensures var u := Unit(src[i..]);
            i + u.len <= |src| && FromWide(src[i..]) == Bytes(u.ucs) + FromWide(src[i + u.len..])
  {
    assert src[i..][Unit(src[i..]).len..] == src[i + Unit(src[i..]).len..];
  }

  lemma CutStep(src: seq<word>, i: nat, room: nat)
    requires i < |src| && room > 0
    ensures var u := Unit(src[i..]);
            var n := |Bytes(u.ucs)|;
            && CutPoint(src[i..], room)
               == (if n >= room then u.len else u.len + CutPoint(src[i + u.len..], room - n))
            && Written(src[i..], room)
               == (if n >= room then [] else Bytes(u.ucs) + Written(src[i + u.len..], room - n))
  {
  }

  lemma CutEnd(src: seq<word>, i: nat, room: nat)
    requires i <= |src| && (i == |src| || room == 0)
    ensures CutPoint(src[i..], room) == 0 && Written(src[i..], room) == []
  {
  }

  lemma SameTail(a: seq<int>, b: seq<int>, i: nat, j: nat)
    requires i <= j <= |a| == |b| && a[i..] == b[i..]
    ensures a[j..] == b[j..]
  {
  }

  lemma NotFilled(src: seq<word>, before: seq<byte>)
    ensures Filled(src, 0, before) == before
  {
  }

  lemma {:induction false} WrittenFirst(w: seq<word>, room: nat)
    ensures FromWide(w) == Written(w, room) + FromWide(Unwritten(w, room))
    ensures room > |FromWide(w)| ==> Unwritten(w, room) == []
    ensures |FromWide(w)| >= room ==> |Written(w, room)| + 4 >= room
  {
    hide Bytes;
    if w != [] && room != 0 {
      var u := Unit(w);
      var n := |Bytes(u.ucs)|;
      if n < room {
        WrittenFirst(w[u.len..], room - n);
      }
    }
  }

  lemma FilledHolds(src: seq<word>, dstlen: nat, before: seq<byte>)
    requires 0 < dstlen <= |before|
    ensures HoldsPrefix(Filled(src, dstlen, before)[..dstlen], FromWide(src), 4)
  {
    hide FromWide, Written, Unwritten;
    WrittenFirst(src, dstlen);
    EmptyConverted();
    var out := Written(src, dstlen);
    assert IsCut(Filled(src, dstlen, before)[..dstlen], FromWide(src), |out|, 4);
  }

  lemma EmptyConverted()
    ensures FromWide([]) == []
  {
  }

  lemma FilledSo(src: seq<word>, dstlen: nat, before: seq<byte>, after: seq<byte>, count: nat)
    requires count < dstlen <= |before| == |after|
    requires after[..count] == Written(src, dstlen) && after[count] == 0 && after[count + 1..] == before[count + 1..]
    ensures after == Filled(src, dstlen, before) && after[dstlen..] == before[dstlen..]
  {
    hide Written;
    assert after == after[..count] + [after[count]] + after[count + 1..];
    assert after[dstlen..] == after[count + 1..][dstlen - count - 1..];
    assert before[dstlen..] == before[count + 1..][dstlen - count - 1..];
  }

  lemma UnitBytes(src: seq<word>, i: nat)
    requires i < |src|
    ensures var (u, w) := (Unit(src[i..]), src[i]);
            if w < 0x80 then u.len == 1 && Bytes(u.ucs) == [w]
            else if w < 0x800 then u.len == 1 && Bytes(u.ucs) == [0xc0 + w / 0x40, 0x80 + w % 0x40]
            else if High(w) && i + 1 < |src| && Low(src[i + 1]) then
              var p := Paired(w, src[i + 1]);
              u.len == 2
              && Bytes(u.ucs)
                 == [0xf0 + p / 0x4_0000, 0x80 + p / 0x1000 % 0x40, 0x80 + p / 0x40 % 0x40, 0x80 + p % 0x40]
            else u.len == 1 && Bytes(u.ucs) == [0xe0 + w / 0x1000, 0x80 + w / 0x40 % 0x40, 0x80 + w % 0x40]
  {
  }

  lemma MeasuredStep(src: seq<word>, i: nat)
    requires i < |src|
    ensures var w, k := src[i..], if src[i] >= 0x800 && High(src[i]) && i + 2 < |src| && Low(src[i + 2]) then 2 else 1;
            Measured(w) == (if src[i] < 0x80 then 1 else if src[i] < 0x800 then 2 else if k == 2 then 4 else 3)
                           + Measured(src[i + k..])
  {
  }

  // ---------- what the measuring phase of utf8fromwc measures ----------

  /** Section 2.1 of RFC 2781: surrogates come in pairs, the high one first. */
  predicate WellFormedUtf16(w: seq<word>) {
    w != [] ==>
      if High(w[0]) then |w| > 1 && Low(w[1]) && WellFormedUtf16(w[2..])
      else !Low(w[0]) && WellFormedUtf16(w[1..])
  }

  function Pairs(w: seq<word>): nat
    requires WellFormedUtf16(w)
  {
    if w == [] then 0
    else if High(w[0]) then 1 + Pairs(w[2..])
    else Pairs(w[1..])
  }

  /** On well-formed UTF-16 it counts two bytes too many for every surrogate pair. */
  lemma {:induction false} MeasuredExcess(w: seq<word>)
    requires WellFormedUtf16(w)
    ensures Measured(w) == |FromWide(w)| + 2 * Pairs(w)
  {
    if w != [] {
      if High(w[0]) {
        MeasuredExcess(w[2..]);
        assert |w| >= 3 ==> w[2..][0] == w[2];
        assert w[1..][1..] == w[2..];
      } else {
        MeasuredExcess(w[1..]);
      }
    }
  }

  /** The promised length is measured exactly when there is no pair. */
  lemma MeasuredExactly(w: seq<word>)
    requires WellFormedUtf16(w)
    ensures Measured(w) == |FromWide(w)| <==> forall i :: 0 <= i < |w| ==> !High(w[i])
  {
    MeasuredExcess(w);
    PairsAreHighs(w);
  }

  lemma {:induction false} PairsAreHighs(w: seq<word>)
    requires WellFormedUtf16(w)
    ensures Pairs(w) == 0 <==> forall i :: 0 <= i < |w| ==> !High(w[i])
  {
    if w != [] && !High(w[0]) {
      var t := w[1..];
      PairsAreHighs(t);
      assert forall i :: 0 < i < |w| ==> w[i] == t[i - 1];
      assert forall i :: 0 <= i < |t| ==> t[i] == w[i + 1];
    }
  }

  /** The cut never splits a pair. */
  lemma {:induction false} CutKeepsPairs(w: seq<word>, room: nat)
    requires WellFormedUtf16(w)
    ensures WellFormedUtf16(w[CutPoint(w, room)..])
  {
    hide Bytes;
    if w == [] || room == 0 {
      assert w[0..] == w;
    } else {
      var u := Unit(w);
      var t := w[u.len..];
      assert WellFormedUtf16(t);
      var n := |Bytes(u.ucs)|;
      if n < room {
        CutKeepsPairs(t, room - n);
        var r := CutPoint(t, room - n);
        assert t[r..] == w[u.len + r..];
      }
    }
  }

  /** For well-formed UTF-16 the reported length is too large by two bytes for each pair
      after the cut point, so it is the length exactly if there is none. */
  lemma ReportedExactly(src: seq<word>, dstlen: nat)
    requires WellFormedUtf16(src)
    ensures var tail := src[CutPoint(src, dstlen)..];
            && WellFormedUtf16(tail)
            && Reported(src, dstlen) == |FromWide(src)| + 2 * Pairs(tail)
            && (Reported(src, dstlen) == |FromWide(src)| <==> forall i :: 0 <= i < |tail| ==> !High(tail[i]))
  {
    hide CutPoint, Measured, FromWide, Pairs, WellFormedUtf16;
    CutKeepsPairs(src, dstlen);
    var tail := src[CutPoint(src, dstlen)..];
    MeasuredExcess(tail);
    PairsAreHighs(tail);
  }

  /** A word on its own. */
  function Width(w: word): nat {
    if w < 0x80 then 1 else if w < 0x800 then 2 else 3
  }

  function Widths(w: seq<word>): nat {
    if w == [] then 0 else Width(w[0]) + Widths(w[1..])
  }

  /** High surrogates directly before a low one. */
  function Adjacent(w: seq<word>): nat {
    if w == [] then 0
    else (if High(w[0]) && |w| >= 2 && Low(w[1]) then 1 else 0) + Adjacent(w[1..])
  }

  /** What the measuring phase saves on the word between a high and a low surrogate that it
      takes for a pair. */
  function Saved(w: seq<word>): nat {
    if w == [] then 0
    else if High(w[0]) && |w| >= 3 && Low(w[2]) then Width(w[1]) - 1 + Saved(w[2..])
    else Saved(w[1..])
  }

  lemma {:induction false} MeasuredSaves(w: seq<word>)
    ensures Measured(w) + Saved(w) == Widths(w)
  {
    if w != [] {
      if High(w[0]) && |w| >= 3 && Low(w[2]) {
        MeasuredSaves(w[2..]);
        assert w[1..][1..] == w[2..];
      } else {
        MeasuredSaves(w[1..]);
      }
    }
  }

  lemma {:induction false} LengthSaves(w: seq<word>)
    ensures |FromWide(w)| + 2 * Adjacent(w) == Widths(w)
  {
    if w != [] {
      var u := Unit(w);
      LengthSaves(w[u.len..]);
      if u.len == 2 {
        assert w[1..][1..] == w[2..];
      }
    }
  }

  /** For any words, surrogates paired or not, the reported length is the length exactly if
      what the measuring phase saves after the cut point is two bytes for each pair there. */
  lemma ReportedInGeneral(src: seq<word>, dstlen: nat)
    ensures var tail := src[CutPoint(src, dstlen)..];
            && Reported(src, dstlen) == |FromWide(src)| + 2 * Adjacent(tail) - Saved(tail)
            && (Reported(src, dstlen) == |FromWide(src)| <==> Saved(tail) == 2 * Adjacent(tail))
  {
    hide CutPoint, Measured, FromWide, Adjacent, Saved, Widths;
    var tail := src[CutPoint(src, dstlen)..];
    MeasuredSaves(tail);
    LengthSaves(tail);
  }

  /** One pair is reported as six bytes and has four; with a word between its halves it can
      be reported as less than it has. */
  method ReportedExamples() returns (pair: nat, apart: nat)
    ensures pair == 6 && |FromWide([0xd83d, 0xde00])| == 4
    ensures apart == 7 && |FromWide([0xd800, 0x800, 0xdc00])| == 9
  {
    var dst := new byte[0];
    pair := Utf8FromWc(dst, 0, [0xd83d, 0xde00]);
    apart := Utf8FromWc(dst, 0, [0xd800, 0x800, 0xdc00]);
    MeasuredPairExample();
  }

  lemma MeasuredPairExample()
    ensures Reported([0xd83d, 0xde00], 0) == 6 && |FromWide([0xd83d, 0xde00])| == 4
    ensures Reported([0xd800, 0x800, 0xdc00], 0) == 7 && |FromWide([0xd800, 0x800, 0xdc00])| == 9
  {
    var w, x: seq<word> := [0xd83d, 0xde00], [0xd800, 0x800, 0xdc00];
    assert w[0..] == w && x[0..] == x;
    assert w[1..] == [0xde00] && x[1..] == [0x800, 0xdc00] && x[2..] == [0xdc00];
    assert x[1..][1..] == [0xdc00];
    assert Measured([0xde00]) == Measured([0xdc00]) == 3;
  }

  // ---------- the string wrappers ----------

  datatype Converted<T> = Success(value: seq<T>) | NonValidUTF8

  /** UTF8ToWString: one word of room per byte and one for the terminator. */
  method UTF8ToWString(str: seq<byte>) returns (r: Converted<word>)
    ensures r == if 0xfffd in ToWide(str) then NonValidUTF8 else Success(ToWide(str))
  {
    hide ToWide, WideWritten, Overlaid;
    var dst := new word[|str| + 1](_ => 0);
    var count := Utf8ToWc(str, dst, |str| + 1);
    assert dst[..|str| + 1][..count] == ToWide(str) == dst[..count];
    var wstr := dst[..count];
    for i := 0 to |wstr|
      invariant 0xfffd !in wstr[..i]
    {
      if wstr[i] == 0xfffd {
        return NonValidUTF8;
      }
    }
    r := Success(wstr);
  }

  /** The replacement character only ever comes from its own encoding, so a malformed
      string is never rejected for being malformed. */
  lemma ReplacementIsNeverAnError(p: seq<byte>)
    requires p != []
    ensures Utf8Decode(p).ucs == 0xfffd <==> |p| >= 3 && p[..3] == [0xef, 0xbf, 0xbd]
  {
    if |p| >= 3 && Continuation(p[1]) && Continuation(p[2]) && 0xe0 <= p[0] < 0xf0 {
      if p[0] != 0xe0 || p[1] >= 0xa0 {
        ThreeRead(p[0], p[1], p[2]);
      }
      assert Three(0xef, 0xbf, 0xbd) == 0xfffd;
    }
    if |p| >= 4 && Utf8Decode(p).len == 4 {
      FourRead(p[0], p[1], p[2], p[3]);
    }
  }

  predicate Ascii(w: seq<word>) {
    forall i :: 0 <= i < |w| ==> w[i] < 0x80
  }

  lemma {:induction false} FromWideLength(w: seq<word>)
    ensures |FromWide(w)| >= |w|
    ensures |FromWide(w)| == |w| <==> Ascii(w)
  {
    if w != [] {
      var u := Unit(w);
      var t := w[u.len..];
      FromWideLength(t);
      assert forall i :: 0 <= i < |t| ==> t[i] == w[i + u.len];
      assert forall i :: u.len <= i < |w| ==> w[i] == t[i - u.len];
    }
  }

  lemma {:induction false} NoNulBytes(w: seq<word>)
    requires 0 !in w
    ensures 0 !in FromWide(w)
  {
    if w != [] {
      var u := Unit(w);
      NoNulBytes(w[u.len..]);
      assert u.ucs != 0;
      assert 0 !in Bytes(u.ucs) by {
        if u.ucs >= 0x800 {
          assert u.ucs / 0x40 % 0x40 >= 0;
        }
      }
    }
  }

  predicate AllNul(w: seq<int>) {
    forall i :: 0 <= i < |w| ==> w[i] == 0
  }

  /** The words after the cut point are among the unwritten ones. */
  lemma {:induction false} CutInUnwritten(w: seq<word>, room: nat)
    requires AllNul(Unwritten(w, room))
    ensures AllNul(w[CutPoint(w, room)..])
  {
    hide Bytes;
    if w != [] && room != 0 {
      var u := Unit(w);
      var n := |Bytes(u.ucs)|;
      if n < room {
        CutInUnwritten(w[u.len..], room - n);
        assert w[CutPoint(w, room)..] == w[u.len..][CutPoint(w[u.len..], room - n)..];
      }
    }
  }

  lemma {:induction false} NulsConverted(w: seq<word>)
    ensures AllNul(FromWide(w)) <==> AllNul(w)
    ensures AllNul(w) ==> Measured(w) == |FromWide(w)| == |w|
  {
    if w != [] {
      var u := Unit(w);
      var t := w[u.len..];
      NulsConverted(t);
      FirstNul(w);
      AllNulConcat(Bytes(u.ucs), FromWide(t));
      assert w == w[..u.len] + t;
      AllNulConcat(w[..u.len], t);
      hide Bytes, Unit, AllNul;
    }
  }

  lemma AllNulConcat(a: seq<int>, b: seq<int>)
    ensures AllNul(a + b) <==> AllNul(a) && AllNul(b)
  {
    forall i | 0 <= i < |b|
      ensures (a + b)[i + |a|] == b[i]
    {
    }
    if AllNul(a + b) {
      assert forall i :: 0 <= i < |a| ==> (a + b)[i] == a[i];
    }
  }

  lemma FirstNul(w: seq<word>)
    requires w != []
    ensures var u := Unit(w);
            && (AllNul(Bytes(u.ucs)) <==> AllNul(w[..u.len]))
            && (AllNul(w[..u.len]) ==> w[0] == 0 && u.len == 1 && |Bytes(u.ucs)| == 1)
  {
    var u := Unit(w);
    assert w[..u.len][0] == w[0];
    assert Bytes(u.ucs)[0] == 0 <==> w[0] == 0;
  }

  /** WStringToUTF8: one byte of room per word and one for the terminator, and the
      result cut or padded with NUL to the length that utf8fromwc reports. It is the
      conversion exactly if the words that had no room are all NUL, which a string
      without NUL meets exactly if it is ASCII. */
  method WStringToUTF8(wstr: seq<word>) returns (str: seq<byte>)
    ensures str == FromWide(wstr) <==> AllNul(Unwritten(wstr, |wstr| + 1))
    ensures Ascii(wstr) ==> str == FromWide(wstr)
    ensures 0 !in wstr ==> (str == FromWide(wstr) <==> Ascii(wstr))
  {
    hide Filled, Reported;
    var dst := new byte[|wstr| + 1](_ => 0);
    assert dst[..] == seq(|wstr| + 1, _ => 0);
    var count := Utf8FromWc(dst, |wstr| + 1, wstr);
    if count <= |wstr| {
      str := dst[..count];
    } else {
      str := dst[..|wstr|] + seq(count - |wstr|, _ => 0);
    }
    Padded(wstr, dst[..], count, str);
  }

  lemma Padded(wstr: seq<word>, buffer: seq<byte>, count: nat, str: seq<byte>)
    requires buffer == Filled(wstr, |wstr| + 1, seq(|wstr| + 1, _ => 0)) && count == Reported(wstr, |wstr| + 1)
    requires if |FromWide(wstr)| <= |wstr| then count == |FromWide(wstr)| else count > |wstr|
    requires str == if count <= |wstr| then buffer[..count]
                    else buffer[..|wstr|] + seq(count - |wstr|, _ => 0)
    ensures str == FromWide(wstr) <==> AllNul(Unwritten(wstr, |wstr| + 1))
    ensures Ascii(wstr) ==> str == FromWide(wstr)
    ensures 0 !in wstr ==> (str == FromWide(wstr) <==> Ascii(wstr))
  {
    var room := |wstr| + 1;
    hide FromWide, Measured, Written, Unwritten, CutPoint;
    WrittenFirst(wstr, room);
    FromWideLength(wstr);
    EmptyConverted();
    PaddedBytes(wstr, buffer, count, str);
    hide Filled, Reported;
    SamePadding(Written(wstr, room), FromWide(Unwritten(wstr, room)), count, str);
    NulsConverted(Unwritten(wstr, room));
    if AllNul(Unwritten(wstr, room)) {
      CutInUnwritten(wstr, room);
      NulsConverted(wstr[CutPoint(wstr, room)..]);
      assert count == |FromWide(wstr)| by {
        TrueLength(wstr, room);
      }
      if Unwritten(wstr, room) != [] {
        WordsKept(wstr, room);
        assert Unwritten(wstr, room)[0] == 0;
      }
    }
  }

  lemma TrueLength(w: seq<word>, room: nat)
    requires Measured(w[CutPoint(w, room)..]) == |FromWide(w[CutPoint(w, room)..])|
    ensures Reported(w, room) == |FromWide(w)|
  {
  }

  /** The result is the bytes written, padded with NUL to the reported length. */
  lemma PaddedBytes(wstr: seq<word>, buffer: seq<byte>, count: nat, str: seq<byte>)
    requires buffer == Filled(wstr, |wstr| + 1, seq(|wstr| + 1, _ => 0))
    requires if |FromWide(wstr)| <= |wstr| then count == |FromWide(wstr)| else count > |wstr|
    requires str == if count <= |wstr| then buffer[..count]
                    else buffer[..|wstr|] + seq(count - |wstr|, _ => 0)
    ensures var out := Written(wstr, |wstr| + 1);
            |out| <= count && str == out + seq(count - |out|, _ => 0)
  {
    hide FromWide, Written, Unwritten;
    WrittenFirst(wstr, |wstr| + 1);
    EmptyConverted();
  }

  lemma SamePadding(out: seq<byte>, rest: seq<byte>, count: nat, str: seq<byte>)
    requires |out| <= count && str == out + seq(count - |out|, _ => 0)
    ensures str == out + rest <==> AllNul(rest) && count == |out| + |rest|
  {
    if str == out + rest {
      assert rest == str[|out|..];
    }
    if AllNul(rest) && count == |out| + |rest| {
      assert rest == seq(count - |out|, _ => 0);
    }
  }

  lemma {:induction false} WordsKept(w: seq<word>, room: nat)
    ensures forall x :: x in Unwritten(w, room) ==> x in w
  {
    hide Bytes;
    if w != [] && room != 0 {
      WordsKept(w[Unit(w).len..], if |Bytes(Unit(w).ucs)| < room then room - |Bytes(Unit(w).ucs)| else 0);
    }
  }
}
