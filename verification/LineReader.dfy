/** File::read_line over a FileMemory (src/filemanager.cpp): lines cut from a buffer that
    is refilled from the file. */
module LineReader {
  import opened Basics

  const LF: byte := 10
  const CR: byte := 13
  const MAX_MAXLEN := 1024 * 1024

  /** The value of an open file: what was read but not handed out, whether a read came
      back short, and what was not read. */
  datatype Reader = Reader(buffer: seq<byte>, short: bool, unread: seq<byte>) {
    /** All bytes still to be handed out. */
    function Rest(): seq<byte> {
      buffer + unread
    }
  }

  /** One result of read_line, with the line terminator that it drops. */
  datatype Line = Line(text: seq<byte>, terminator: seq<byte>, maxLenReached: bool, eofReached: bool) {
    /** The bytes that the line used up. */
    function Consumed(): seq<byte> {
      text + terminator
    }
  }

  function Min(a: nat, b: nat): nat {
    if a < b then a else b
  }

  /** Position of the first CR or LF, or the length if there is none. */
  function LineEnd(s: seq<byte>): (k: nat)
    ensures k <= |s|
    ensures forall i :: 0 <= i < k ==> s[i] != LF && s[i] != CR
    ensures k < |s| ==> s[k] == LF || s[k] == CR
  {
    if s == [] || s[0] == LF || s[0] == CR then 0 else 1 + LineEnd(s[1..])
  }

  /** What terminates a line that ends at `k`, as far as the buffer shows. */
  function TerminatorAt(s: seq<byte>, k: nat): (t: seq<byte>)
    requires k < |s| && (s[k] == LF || s[k] == CR)
    ensures t == [LF] || t == [CR] || t == [CR, LF]
    ensures k + |t| <= |s| && s[k..k + |t|] == t
  {
    if s[k] == CR && k + 1 < |s| && s[k + 1] == LF then [CR, LF] else [s[k]]
  }

  /** FileMemory::read of `n` bytes into the end of the buffer. */
  function Refilled(r: Reader, n: nat): Reader {
    var k := Min(n, |r.unread|);
    Reader(r.buffer + r.unread[..k], r.short || k < n, r.unread[k..])
  }

  /** The buffer holds enough to hand out a line, or no more can be had. */
  predicate Ready(r: Reader, limit: nat) {
    LineEnd(r.buffer) < |r.buffer| || limit <= |r.buffer| || r.short
  }

  /** Hands out a line from the buffer. */
  function Serve(r: Reader, limit: nat): (Line, Reader)
    requires Ready(r, limit)
  {
    var k := LineEnd(r.buffer);
    if k < |r.buffer| && k <= limit then
      var t := TerminatorAt(r.buffer, k);
      (Line(r.buffer[..k], t, false, false), r.(buffer := r.buffer[k + |t|..]))
    else if limit <= |r.buffer| then
      (Line(r.buffer[..limit], [], true, false), r.(buffer := r.buffer[limit..]))
    else
      (Line(r.buffer, [], false, r.buffer == []), r.(buffer := []))
  }

  /** The reader that serves a call: one refill is always enough. */
  function Prepared(r: Reader, limit: nat): (p: Reader)
    ensures Ready(p, limit)
    ensures p.Rest() == r.Rest()
  {
    if Ready(r, limit) then r
    else
      var n := limit - |r.buffer|;
      var k := Min(n, |r.unread|);
      assert r.unread == r.unread[..k] + r.unread[k..];
      Refilled(r, n)
  }

  /** One call of read_line. */
  function NextLine(r: Reader, maxLen: nat): (Line, Reader) {
    var limit := Min(maxLen, MAX_MAXLEN);
    Serve(Prepared(r, limit), limit)
  }

  lemma RefilledMeasure(r: Reader, limit: nat)
    requires |r.buffer| < limit
    ensures var p := Refilled(r, limit - |r.buffer|);
            p.short || (!r.short && |p.buffer| == limit)
  {
  }

  lemma PreparedReady(r: Reader, limit: nat)
    requires Ready(r, limit)
    ensures Prepared(r, limit) == r
  {
  }

  lemma PreparedRefill(r: Reader, limit: nat)
    requires !Ready(r, limit)
    ensures var p := Refilled(r, limit - |r.buffer|);
            Ready(p, limit) && Prepared(p, limit) == Prepared(r, limit) == p
  {
  }

  /** The three ways of serving a ready buffer, in the order in which they are tried. */
  lemma ServeCases(r: Reader, limit: nat)
    requires Ready(r, limit)
    ensures var k := LineEnd(r.buffer);
            Serve(r, limit)
            == if k < |r.buffer| && k <= limit then
                 var crlf := r.buffer[k] == CR && k + 1 < |r.buffer| && r.buffer[k + 1] == LF;
                 (Line(r.buffer[..k], TerminatorAt(r.buffer, k), false, false),
                  r.(buffer := r.buffer[if crlf then k + 2 else k + 1..]))
               else if limit <= |r.buffer| then
                 (Line(r.buffer[..limit], [], true, false), r.(buffer := r.buffer[limit..]))
               else (Line(r.buffer, [], false, r.buffer == []), r.(buffer := []))
  {
  }

  // ---------- the objects ----------

  class FileMemory {
    const m_data: seq<byte>
    var m_pos: nat
    var readLineBuffer_: seq<byte>
    var eofReadLine_: bool

    constructor (data: seq<byte>)
      ensures m_data == data && Value() == Reader([], false, data)
    {
      m_data := data;
      m_pos := 0;
      readLineBuffer_ := [];
      eofReadLine_ := false;
    }

    ghost function Value(): Reader
      reads this
    {
      Reader(readLineBuffer_, eofReadLine_, if m_pos < |m_data| then m_data[m_pos..] else [])
    }

    /** Copies up to `sizeBytes` bytes from the current position. */
    method Read(sizeBytes: nat) returns (bytes: seq<byte>)
      modifies this`m_pos
      ensures bytes == old(Value().unread)[..Min(sizeBytes, |old(Value().unread)|)]
      ensures Value().unread == old(Value().unread)[|bytes|..]
    {
      if m_pos >= |m_data| {
        return [];
      }
      if sizeBytes >= |m_data| - m_pos {
        bytes := m_data[m_pos..];
        m_pos := |m_data|;
        return;
      }
      bytes := m_data[m_pos..m_pos + sizeBytes];
      assert m_data[m_pos..][..sizeBytes] == bytes;
      m_pos := m_pos + sizeBytes;
    }

    method ReadLine(maxLen: nat) returns (text: seq<byte>, maxLenReached: bool, eofReached: bool)
      modifies this
      ensures var (line, r) := NextLine(old(Value()), maxLen);
              && text == line.text && maxLenReached == line.maxLenReached
              && eofReached == line.eofReached && Value() == r
    {
      hide LineEnd, Prepared, Serve, TerminatorAt, Refilled;
      var limit := Min(maxLen, MAX_MAXLEN);
      while true
        invariant Prepared(Value(), limit) == Prepared(old(Value()), limit)
        decreases if eofReadLine_ then 0 else 1, limit - |readLineBuffer_|
      {
        ghost var before := Value();
        // consume existing lines in the buffer
        var pos := LineEnd(readLineBuffer_);
        if Ready(before, limit) {
          PreparedReady(before, limit);
          ServeCases(before, limit);
        }
        if pos < |readLineBuffer_| {
          if pos > limit {
            text := readLineBuffer_[..limit];
            readLineBuffer_ := readLineBuffer_[limit..];
            return text, true, false;
          }
          text := readLineBuffer_[..pos];
          if readLineBuffer_[pos] == CR && pos + 1 < |readLineBuffer_| && readLineBuffer_[pos + 1] == LF {
            pos := pos + 1;
          }
          readLineBuffer_ := readLineBuffer_[pos + 1..];
          return text, false, false;
        }
        var prevSize := |readLineBuffer_|;
        if limit <= prevSize {
          text := readLineBuffer_[..limit];
          readLineBuffer_ := readLineBuffer_[limit..];
          return text, true, false;
        }
        if eofReadLine_ {
          text := readLineBuffer_;
          readLineBuffer_ := [];
          return text, false, text == [];
        }
        Refill(limit);
        PreparedRefill(before, limit);
        RefilledMeasure(before, limit);
      }
    }

    /** Reads into the end of the buffer until it has `limit` bytes. */
    method Refill(limit: nat)
      requires |readLineBuffer_| < limit
      modifies this
      ensures Value() == Refilled(old(Value()), limit - |old(readLineBuffer_)|)
    {
      var prevSize := |readLineBuffer_|;
      var bytes := Read(limit - prevSize);
      if |bytes| < limit - prevSize {
        eofReadLine_ := true;
      }
      readLineBuffer_ := readLineBuffer_ + bytes;
    }
  }

  // ---------- conservation ----------

  lemma ServeConserves(r: Reader, limit: nat)
    requires Ready(r, limit)
    ensures var (line, r') := Serve(r, limit);
            && r.buffer == line.Consumed() + r'.buffer && r.unread == r'.unread && r.short == r'.short
            && |line.text| <= limit
            && (line.terminator == [] || line.terminator == [LF] || line.terminator == [CR]
                || line.terminator == [CR, LF])
            && LF !in line.text && CR !in line.text
            && (line.eofReached ==> r.buffer == [])
            && (limit > 0 && line.Consumed() == [] ==> line.eofReached && r.short)
  {
    var k := LineEnd(r.buffer);
    if k < |r.buffer| && k <= limit {
      var t := TerminatorAt(r.buffer, k);
      assert r.buffer == r.buffer[..k] + t + r.buffer[k + |t|..];
    } else if limit <= |r.buffer| {
      assert r.buffer == r.buffer[..limit] + r.buffer[limit..];
    }
  }

  /** One call hands out, in order, a prefix of what is left. */
  lemma CallConserves(r: Reader, maxLen: nat)
    ensures var (line, r') := NextLine(r, maxLen);
            && r.Rest() == line.Consumed() + r'.Rest()
            && |line.text| <= Min(maxLen, 1048576)
            && (line.terminator == [] || line.terminator == [LF] || line.terminator == [CR]
                || line.terminator == [CR, LF])
            && LF !in line.text && CR !in line.text
  {
    hide Serve;
    var limit := Min(maxLen, MAX_MAXLEN);
    var p := Prepared(r, limit);
    ServeConserves(p, limit);
    var (line, r') := Serve(p, limit);
    assert (line.Consumed() + r'.buffer) + r'.unread == line.Consumed() + (r'.buffer + r'.unread);
  }

  /** A reader whose file was not moved under it. */
  predicate Steady(r: Reader) {
    r.short ==> r.unread == []
  }

  /** End of file is reported exactly when nothing is left; until then every call makes
      progress. */
  lemma CallProgresses(r: Reader, maxLen: nat)
    requires Steady(r) && maxLen >= 1
    ensures var (line, r') := NextLine(r, maxLen);
            && Steady(r')
            && (line.eofReached <==> r.Rest() == [])
            && (r.Rest() != [] ==> line.Consumed() != [])
  {
    hide LineEnd;
    var limit := Min(maxLen, MAX_MAXLEN);
    var p := Prepared(r, limit);
    assert Steady(p);
    ServeConserves(p, limit);
    var (line, r') := Serve(p, limit);
    if r.Rest() == [] {
      assert p.buffer == [] && p.unread == [];
      assert line == Line([], [], false, true);
    }
  }

  // ---------- runs of calls ----------

  /** Successive calls with these limits. */
  function Lines(r: Reader, maxLens: seq<nat>): (x: (seq<Line>, Reader))
    ensures |x.0| == |maxLens|
    decreases |maxLens|
  {
    if maxLens == [] then ([], r)
    else
      var (line, r1) := NextLine(r, maxLens[0]);
      var (rest, r2) := Lines(r1, maxLens[1..]);
      ([line] + rest, r2)
  }

  function AllConsumed(lines: seq<Line>): seq<byte> {
    if lines == [] then [] else lines[0].Consumed() + AllConsumed(lines[1..])
  }

  /** Over any run the lines and their terminators, in order, are the bytes used up. */
  lemma {:induction false} RunConserves(r: Reader, maxLens: seq<nat>)
    ensures var (lines, r') := Lines(r, maxLens);
            r.Rest() == AllConsumed(lines) + r'.Rest()
    decreases |maxLens|
  {
    hide NextLine;
    if maxLens != [] {
      var (line, r1) := NextLine(r, maxLens[0]);
      CallConserves(r, maxLens[0]);
      RunConserves(r1, maxLens[1..]);
      var (rest, r2) := Lines(r1, maxLens[1..]);
      assert ([line] + rest)[1..] == rest;
      assert line.Consumed() + (AllConsumed(rest) + r2.Rest()) == (line.Consumed() + AllConsumed(rest)) + r2.Rest();
    }
  }

  /** Enough calls with positive limits hand out the whole file and then report its end. */
  lemma {:induction false} RunReachesEnd(r: Reader, maxLens: seq<nat>)
    requires Steady(r) && |maxLens| > |r.Rest()|
    requires forall i :: 0 <= i < |maxLens| ==> maxLens[i] >= 1
    ensures var (lines, r') := Lines(r, maxLens);
            && lines[|lines| - 1].eofReached
            && AllConsumed(lines) == r.Rest() && r'.Rest() == []
    decreases |maxLens|
  {
    hide NextLine;
    hide Lines, AllConsumed;
    var (line, r1) := NextLine(r, maxLens[0]);
    CallConserves(r, maxLens[0]);
    CallProgresses(r, maxLens[0]);
    RunConserves(r, maxLens);
    LinesStep(r, maxLens);
    if |maxLens| > 1 {
      RunReachesEnd(r1, maxLens[1..]);
    } else {
      assert maxLens[1..] == [];
      LinesEnd(r1);
    }
    var (lines, r') := Lines(r, maxLens);
    assert AllConsumed(lines) + [] == AllConsumed(lines);
  }

  // ---------- files with LF line ends ----------

  /** The LF-separated lines of a text; a final LF does not start another one. */
  function Split(s: seq<byte>): (ls: seq<seq<byte>>)
    requires CR !in s
  {
    if s == [] then []
    else
      var k := LineEnd(s);
      if k == |s| then [s] else [s[..k]] + Split(s[k + 1..])
  }

  lemma {:induction false} LineEndOfPrefix(s: seq<byte>, n: nat)
    requires n <= |s|
    ensures LineEnd(s[..n]) == Min(LineEnd(s), n)
  {
  }

  /** A line shorter than the limit is read whole. */
  lemma ShortLineRead(r: Reader, maxLen: nat)
    requires Steady(r) && CR !in r.Rest()
    requires LineEnd(r.Rest()) < maxLen <= MAX_MAXLEN
    ensures var (line, r') := NextLine(r, maxLen);
            var s := r.Rest();
            var k := LineEnd(s);
            && line.text == s[..k] && !line.maxLenReached && Steady(r')
            && (line.eofReached <==> s == [])
            && r'.Rest() == s[Min(k + 1, |s|)..]
  {
    var p := Prepared(r, maxLen);
    assert Steady(p);
    hide Prepared, Serve, LineEnd;
    ShortLineServed(p, maxLen);
  }

  lemma ShortLineServed(p: Reader, maxLen: nat)
    requires Steady(p) && CR !in p.Rest() && Ready(p, maxLen)
    requires LineEnd(p.Rest()) < maxLen
    ensures var (line, r') := Serve(p, maxLen);
            var s := p.Rest();
            var k := LineEnd(s);
            && line.text == s[..k] && !line.maxLenReached && Steady(r')
            && (line.eofReached <==> s == [])
            && r'.Rest() == s[Min(k + 1, |s|)..]
  {
    var s := p.Rest();
    var k := LineEnd(s);
    LineEndOfPrefix(s, |p.buffer|);
    assert s[..|p.buffer|] == p.buffer;
    hide LineEnd;
    if k < |p.buffer| {
      assert p.buffer[k] in s;
      ServeLf(p, k, maxLen);
    } else {
      assert p.unread == [] && s == p.buffer;
    }
  }

  lemma ServeLf(p: Reader, k: nat, limit: nat)
    requires LineEnd(p.buffer) == k < |p.buffer| && k <= limit && p.buffer[k] != CR
    ensures Ready(p, limit)
    ensures var (line, r') := Serve(p, limit);
            line == Line(p.Rest()[..k], [LF], false, false) && r'.Rest() == p.Rest()[k + 1..]
  {
  }

  /** The result of reading a line of text that was ended properly. */
  function TextOf(lines: seq<Line>): (ts: seq<seq<byte>>)
    ensures |ts| == |lines|
  {
    if lines == [] then [] else [lines[0].text] + TextOf(lines[1..])
  }

  /** Without CR, and with every line shorter than a constant limit of at most a mebibyte,
      the results are the LF-separated lines and no limit is ever reached. */
  lemma {:induction false} LfFileRead(r: Reader, maxLen: nat)
    requires Steady(r) && CR !in r.Rest() && 0 < maxLen <= 1048576
    requires forall i :: 0 <= i < |Split(r.Rest())| ==> |Split(r.Rest())[i]| < maxLen
    ensures var n := |Split(r.Rest())|;
            var (lines, r') := Lines(r, seq(n, _ => maxLen));
            && TextOf(lines) == Split(r.Rest()) && r'.Rest() == []
            && forall i :: 0 <= i < n ==> !lines[i].maxLenReached && !lines[i].eofReached
    decreases |r.Rest()|
  {
    hide NextLine, LineEnd, Lines, TextOf, Split;
    var s := r.Rest();
    LinesEnd(r);
    SplitStep(s);
    if s != [] {
      ShortLineRead(r, maxLen);
      var (line, r1) := NextLine(r, maxLen);
      assert forall i :: 0 <= i < |Split(r1.Rest())| ==> Split(r1.Rest())[i] == Split(s)[i + 1];
      assert CR !in r1.Rest();
      LfFileRead(r1, maxLen);
      var limits := seq(|Split(s)|, _ => maxLen);
      assert limits[1..] == seq(|Split(s)| - 1, _ => maxLen);
      LinesStep(r, limits);
    } else {
      assert seq(0, _ => maxLen) == [];
    }
  }

  lemma LinesEnd(r: Reader)
    ensures Lines(r, []) == ([], r) && TextOf([]) == []
  {
  }

  lemma LinesStep(r: Reader, maxLens: seq<nat>)
    requires maxLens != []
    ensures var (line, r1) := NextLine(r, maxLens[0]);
            var (rest, r2) := Lines(r1, maxLens[1..]);
            && Lines(r, maxLens) == ([line] + rest, r2)
            && TextOf([line] + rest) == [line.text] + TextOf(rest)
  {
  }

  lemma SplitStep(s: seq<byte>)
    requires CR !in s
    ensures s == [] ==> Split(s) == []
    ensures s != [] ==>
              var k := LineEnd(s);
              var tail := s[Min(k + 1, |s|)..];
              CR !in tail && Split(s) == [s[..k]] + Split(tail)
              && |Split(s)| > 0 && (k < |Split(s)[0]| + 1)
  {
    if s != [] && LineEnd(s) == |s| {
      assert s[|s|..] == [];
      assert s[..|s|] == s;
    }
  }

  /** The limit is reported exactly if no line end comes before it and so much is left, unless
      a line end right at the limit is buffered already; then so much is handed out. */
  lemma LimitReachedExactly(r: Reader, maxLen: nat)
    requires Steady(r)
    ensures var (line, r') := NextLine(r, maxLen);
            var s, limit := r.Rest(), Min(maxLen, 1048576);
            && (line.maxLenReached
                <==> limit <= |s| && limit <= LineEnd(s) && !(limit == LineEnd(s) && limit < |r.buffer|))
            && (line.maxLenReached ==> line.text == s[..limit] && r'.Rest() == s[limit..])
  {
    var s, limit := r.Rest(), Min(maxLen, 1048576);
    var p := Prepared(r, limit);
    assert Steady(p);
    PreparedReach(r, limit);
    LineEndOfPrefix(s, |p.buffer|);
    assert s[..|p.buffer|] == p.buffer;
    hide LineEnd, Prepared;
    ServeCases(p, limit);
    if limit <= |p.buffer| {
      assert p.buffer[..limit] == s[..limit];
      assert p.buffer[limit..] + p.unread == s[limit..];
    }
  }

  /** The buffer only grows up to the limit, and reaches it if there is enough. */
  lemma PreparedReach(r: Reader, limit: nat)
    requires Steady(r)
    ensures var p := Prepared(r, limit);
            && (|p.buffer| > limit ==> p == r)
            && (LineEnd(p.buffer) < |p.buffer| || limit <= |p.buffer| || p.unread == [])
  {
    hide LineEnd;
  }

  // ---------- files with CRLF line ends ----------

  /** The text continues with CR LF after `k` bytes that are neither. */
  predicate EndsCrLf(s: seq<byte>, k: nat) {
    k == LineEnd(s) && k + 1 < |s| && s[k] == CR && s[k + 1] == LF
  }

  /** A line end at `k` is close enough to be seen: before the limit, or at it if it is in the
      buffer already. */
  predicate WithinLimit(r: Reader, limit: nat, k: nat) {
    k < limit || (k == limit && k < |r.buffer|)
  }

  /** A line that ends in CR LF within the limit is handed out whole, and its terminator is
      dropped exactly if the buffer that serves it reaches beyond the CR. Otherwise the LF
      is left behind. */
  lemma CrLfDropped(r: Reader, maxLen: nat, k: nat)
    requires Steady(r) && EndsCrLf(r.Rest(), k) && WithinLimit(r, Min(maxLen, MAX_MAXLEN), k)
    ensures var p := Prepared(r, Min(maxLen, MAX_MAXLEN));
            var (line, r') := NextLine(r, maxLen);
            && LineEnd(p.buffer) == k < |p.buffer|
            && line.text == r.Rest()[..k] && !line.maxLenReached && !line.eofReached
            && (line.terminator == [CR, LF] <==> k + 1 < |p.buffer|)
            && (line.terminator != [CR, LF] ==> line.terminator == [CR] && r'.Rest() == r.Rest()[k + 1..])
  {
    var limit := Min(maxLen, MAX_MAXLEN);
    hide LineEnd, Prepared, EndsCrLf;
    CrLfSeen(r, limit, k);
    CrLfServed(Prepared(r, limit), limit, k);
  }

  /** The buffer that serves the call holds the CR. */
  lemma CrLfSeen(r: Reader, limit: nat, k: nat)
    requires Steady(r) && EndsCrLf(r.Rest(), k) && WithinLimit(r, limit, k)
    ensures var p := Prepared(r, limit);
            && LineEnd(p.buffer) == k < |p.buffer| && k <= limit && p.buffer[k] == CR
            && k + 1 < |p.Rest()| && p.Rest()[k + 1] == LF
  {
    BufferReach(r, limit);
    hide Prepared;
    var p := Prepared(r, limit);
    LineEndOfPrefix(r.Rest(), |p.buffer|);
    assert r.Rest()[..|p.buffer|] == p.buffer;
  }

  lemma CrLfServed(p: Reader, limit: nat, k: nat)
    requires Ready(p, limit) && LineEnd(p.buffer) == k < |p.buffer| && k <= limit
    requires p.buffer[k] == CR && k + 1 < |p.Rest()| && p.Rest()[k + 1] == LF
    ensures var (line, r') := Serve(p, limit);
            && line.text == p.Rest()[..k] && !line.maxLenReached && !line.eofReached
            && (line.terminator == [CR, LF] <==> k + 1 < |p.buffer|)
            && (line.terminator != [CR, LF] ==> line.terminator == [CR] && r'.Rest() == p.Rest()[k + 1..])
  {
  }

  /** In terms of what the caller knows: if the line end is in the buffer already the CR must
      not be its last byte; otherwise the CR must not be the last byte that the limit
      lets in. */
  lemma CrLfDroppedExactly(r: Reader, maxLen: nat, k: nat)
    requires Steady(r) && EndsCrLf(r.Rest(), k) && WithinLimit(r, Min(maxLen, MAX_MAXLEN), k)
    ensures NextLine(r, maxLen).0.terminator == [CR, LF]
       <==> k + 1 < if k < |r.buffer| then |r.buffer| else Min(maxLen, MAX_MAXLEN)
  {
    CrLfDropped(r, maxLen, k);
    hide NextLine, Prepared;
    BufferReach(r, Min(maxLen, MAX_MAXLEN));
  }

  /** How far the buffer that serves a call reaches. */
  lemma BufferReach(r: Reader, limit: nat)
    requires Steady(r) && LineEnd(r.Rest()) < |r.Rest()| && WithinLimit(r, limit, LineEnd(r.Rest()))
    ensures |Prepared(r, limit).buffer|
            == if LineEnd(r.Rest()) < |r.buffer| then |r.buffer| else Min(limit, |r.Rest()|)
  {
    LineEndOfPrefix(r.Rest(), |r.buffer|);
    assert r.Rest()[..|r.buffer|] == r.buffer;
    hide LineEnd;
    if LineEnd(r.Rest()) < |r.buffer| {
      assert Ready(r, limit);
    } else {
      assert !Ready(r, limit);
    }
  }

  /** For a file that nothing was read of yet. */
  lemma CrLfAtStart(data: seq<byte>, maxLen: nat, k: nat)
    requires EndsCrLf(data, k) && k < maxLen <= MAX_MAXLEN
    ensures NextLine(Reader([], false, data), maxLen).0.terminator == [CR, LF] <==> k + 1 < maxLen
  {
    hide NextLine, EndsCrLf, LineEnd;
    var r := Reader([], false, data);
    assert Steady(r);
    assert r.Rest() == data;
    CrLfDroppedExactly(r, maxLen, k);
  }

  /** The LF that a CR left behind is the next line: an empty one. */
  lemma LfLeftBehind(r: Reader, maxLen: nat)
    requires Steady(r) && r.Rest() != [] && r.Rest()[0] == LF && maxLen >= 1
    ensures var (line, r') := NextLine(r, maxLen);
            line == Line([], [LF], false, false) && r'.Rest() == r.Rest()[1..]
  {
  }

  /** For example: a CR that fills the buffer does not see its LF, which then passes for an
      empty line. */
  lemma SplitTerminatorExample()
    ensures var (lines, _) := Lines(Reader([], false, [97, CR, LF, 98]), [2, 2, 2]);
            TextOf(lines) == [[97], [], [98]]
  {
    var r0, r1, r2 :=
      Reader([], false, [97, CR, LF, 98]), Reader([], false, [LF, 98]), Reader([98], false, []);
    FirstRead();
    SecondRead();
    ThirdRead();
    hide NextLine, Lines, TextOf;
    LinesStep(r0, [2, 2, 2]);
    LinesStep(r1, [2, 2]);
    LinesStep(r2, [2]);
    LinesEnd(NextLine(r2, 2).1);
    assert [2, 2, 2][1..] == [2, 2] && [2, 2][1..] == [2] && [2][1..] == [];
  }

  lemma FirstRead()
    ensures NextLine(Reader([], false, [97, CR, LF, 98]), 2)
            == (Line([97], [CR], false, false), Reader([], false, [LF, 98]))
  {
    var r := Reader([97, CR], false, [LF, 98]);
    assert Refilled(Reader([], false, [97, CR, LF, 98]), 2) == r;
    assert r.buffer[1..] == [CR] && r.buffer[..1] == [97] && r.buffer[2..] == [];
    assert LineEnd(r.buffer) == 1;
    assert TerminatorAt(r.buffer, 1) == [CR];
  }

  lemma SecondRead()
    ensures NextLine(Reader([], false, [LF, 98]), 2) == (Line([], [LF], false, false), Reader([98], false, []))
  {
    var r := Reader([LF, 98], false, []);
    assert Refilled(Reader([], false, [LF, 98]), 2) == r;
    assert LineEnd(r.buffer) == 0;
    assert r.buffer[1..] == [98];
  }

  lemma ThirdRead()
    ensures NextLine(Reader([98], false, []), 2) == (Line([98], [], false, false), Reader([], true, []))
  {
  }
}
