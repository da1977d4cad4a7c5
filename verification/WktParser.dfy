/** The bracket parser parse_wkt / parse_wkt_array of scripts/build_db_from_esri.py, at
    nesting level one and deeper, where it returns plain lists. */
module WktParser {

  datatype Wkt = Leaf(text: string) | Node(name: string, children: seq<Wkt>)

  /** Raised stands for a failed assertion or an index out of range. */
  datatype Result<+T> = Ok(value: T) | Raised

  // ---------- the parser ----------

  /** Splits at the commas outside brackets and quotes; quotes are dropped wherever they
      stand. */
  function Tokens(s: string, inString: bool, depth: nat, cur: string): Result<seq<string>> {
    if s == "" then
      if depth != 0 then Raised else Ok(if cur == "" then [] else [cur])
    else
      var c, rest := s[0], s[1..];
      if inString then
        if c == '"' then Tokens(rest, false, depth, cur) else Tokens(rest, true, depth, cur + [c])
      else if c == '"' then Tokens(rest, true, depth, cur)
      else if c == '[' then Tokens(rest, false, depth + 1, cur + [c])
      else if c == ']' then
        if depth == 0 then Raised else Tokens(rest, false, depth - 1, cur + [c])
      else if depth == 0 && c == ',' then
        match Tokens(rest, false, 0, "")
        case Raised => Raised
        case Ok(ts) => Ok([cur] + ts)
      else Tokens(rest, false, depth, cur + [c])
  }

  /** Python's `s.find('[')`, with the length for "not found". */
  function Find(s: string): (k: nat)
    ensures k <= |s|
    ensures k < |s| ==> s[k] == '['
    ensures forall i :: 0 <= i < k ==> s[i] != '['
  {
    if s == "" || s[0] == '[' then 0 else 1 + Find(s[1..])
  }

  /** Python's `s[from:-1]`. */
  function Inner(s: string, from: nat): (t: string)
    requires 0 < from <= |s|
    ensures |t| < |s|
  {
    if from <= |s| - 1 then s[from..|s| - 1] else ""
  }

  lemma {:induction false} TokensShort(s: string, inString: bool, depth: nat, cur: string, bound: nat)
    requires |s| + |cur| <= bound
    ensures var r := Tokens(s, inString, depth, cur);
            r.Ok? ==> forall i :: 0 <= i < |r.value| ==> |r.value[i]| <= bound
    decreases |s|
  {
    if s != "" {
      var c, rest := s[0], s[1..];
      if inString {
        TokensShort(rest, c != '"', depth, if c == '"' then cur else cur + [c], bound);
      } else if c == '"' {
        TokensShort(rest, true, depth, cur, bound);
      } else if c == '[' {
        TokensShort(rest, false, depth + 1, cur + [c], bound);
      } else if c == ']' {
        if depth > 0 {
          TokensShort(rest, false, depth - 1, cur + [c], bound);
        }
      } else if depth == 0 && c == ',' {
        TokensShort(rest, false, 0, "", bound);
        if Tokens(rest, false, 0, "").Ok? {
          var ts := Tokens(rest, false, 0, "").value;
          assert Tokens(s, inString, depth, cur) == Ok([cur] + ts);
          assert forall i :: 0 < i < |[cur] + ts| ==> ([cur] + ts)[i] == ts[i - 1];
        }
      } else {
        TokensShort(rest, false, depth, cur + [c], bound);
      }
    }
  }

  function ParseTree(s: string): Result<Wkt>
    decreases |s|, 0
  {
    if s == "" then Raised
    else if s[0] == '"' || Find(s) == |s| then Ok(Leaf(s))
    else
      match ParseArray(Inner(s, Find(s) + 1))
      case Raised => Raised
      case Ok(children) => Ok(Node(s[..Find(s)], children))
  }

  function ParseArray(s: string): Result<seq<Wkt>>
    decreases |s|, 2
  {
    match Tokens(s, false, 0, "")
    case Raised => Raised
    case Ok(ts) => TokensShort(s, false, 0, "", |s|); ParseAll(ts, |s|)
  }

  function ParseAll(ts: seq<string>, bound: nat): Result<seq<Wkt>>
    requires forall i :: 0 <= i < |ts| ==> |ts[i]| <= bound
    decreases bound, 1, |ts|
  {
    if ts == [] then Ok([])
    else
      match (ParseTree(ts[0]), ParseAll(ts[1..], bound))
      case (Ok(t), Ok(rest)) => Ok([t] + rest)
      case _ => Raised
  }

  /** parse_wkt. */
  method ParseWkt(s: string) returns (r: Result<Wkt>)
    ensures r == ParseTree(s)
    decreases |s|, 0
  {
    if s == "" {
      return Raised;
    }
    if s[0] == '"' {
      return Ok(Leaf(s));
    }
    var pos := Find(s);
    if pos == |s| {
      return Ok(Leaf(s));
    }
    var a := ParseWktArray(Inner(s, pos + 1));
    r := match a case Raised => Raised case Ok(children) => Ok(Node(s[..pos], children));
  }

  /** What the loop of parse_wkt_array has still to deliver. */
  function Pending(ar: seq<Wkt>, s: string, inString: bool, depth: nat, cur: string, bound: nat): Result<seq<Wkt>>
    requires |s| + |cur| <= bound
  {
    match Tokens(s, inString, depth, cur)
    case Raised => Raised
    case Ok(ts) =>
      TokensShort(s, inString, depth, cur, bound);
      match ParseAll(ts, bound)
      case Raised => Raised
      case Ok(ws) => Ok(ar + ws)
  }

  /** parse_wkt_array. */
  method ParseWktArray(s: string) returns (r: Result<seq<Wkt>>)
    ensures r == ParseArray(s)
    decreases |s|, 1
  {
    var ar: seq<Wkt> := [];
    var inString, curToken, indentLevel := false, "", 0;
    PendingStart(s);
    for i := 0 to |s|
      invariant 0 <= indentLevel && |curToken| <= i
      invariant Pending(ar, s[i..], inString, indentLevel, curToken, |s|) == ParseArray(s)
    {
      var c := s[i];
      PendingStep(ar, s[i..], inString, indentLevel, curToken, |s|);
      assert s[i..][0] == c && s[i..][1..] == s[i + 1..];
      if inString {
        if c == '"' {
          inString := false;
        } else {
          curToken := curToken + [c];
        }
      } else if c == '"' {
        inString := true;
      } else if c == '[' {
        curToken := curToken + [c];
        indentLevel := indentLevel + 1;
      } else if c == ']' {
        curToken := curToken + [c];
        if indentLevel == 0 {
          return Raised;
        }
        indentLevel := indentLevel - 1;
      } else if indentLevel == 0 && c == ',' {
        var t := ParseWkt(curToken);
        if t.Raised? {
          return Raised;
        }
        ar := ar + [t.value];
        curToken := "";
      } else {
        curToken := curToken + [c];
      }
    }
    assert s[|s|..] == "";
    PendingEnd(ar, inString, indentLevel, curToken, |s|);
    if indentLevel != 0 {
      return Raised;
    }
    if curToken != "" {
      var t := ParseWkt(curToken);
      if t.Raised? {
        return Raised;
      }
      ar := ar + [t.value];
    }
    r := Ok(ar);
  }

  lemma PendingStart(s: string)
    ensures s[0..] == s && Pending([], s, false, 0, "", |s|) == ParseArray(s)
  {
    var p := Pending([], s, false, 0, "", |s|);
    match Tokens(s, false, 0, "")
    case Raised =>
    case Ok(ts) =>
      TokensShort(s, false, 0, "", |s|);
      var a := ParseAll(ts, |s|);
      if a.Ok? {
        assert [] + a.value == a.value;
      }
  }

  lemma PendingStep(ar: seq<Wkt>, s: string, inString: bool, depth: nat, cur: string, bound: nat)
    requires s != "" && |s| + |cur| <= bound
    ensures var (c, rest) := (s[0], s[1..]);
            Pending(ar, s, inString, depth, cur, bound)
            == if inString then
                 if c == '"' then Pending(ar, rest, false, depth, cur, bound)
                 else Pending(ar, rest, true, depth, cur + [c], bound)
               else if c == '"' then Pending(ar, rest, true, depth, cur, bound)
               else if c == '[' then Pending(ar, rest, false, depth + 1, cur + [c], bound)
               else if c == ']' then
                 if depth == 0 then Raised else Pending(ar, rest, false, depth - 1, cur + [c], bound)
               else if depth == 0 && c == ',' then
                 match ParseTree(cur)
                 case Raised => Raised
                 case Ok(t) => Pending(ar + [t], rest, false, 0, "", bound)
               else Pending(ar, rest, false, depth, cur + [c], bound)
  {
    var c, rest := s[0], s[1..];
    if !inString && depth == 0 && c == ',' {
      PendingComma(ar, rest, cur, bound);
    }
  }

  lemma PendingComma(ar: seq<Wkt>, rest: string, cur: string, bound: nat)
    requires |rest| + |cur| < bound
    ensures Pending(ar, "," + rest, false, 0, cur, bound)
            == match ParseTree(cur)
               case Raised => Raised
               case Ok(t) => Pending(ar + [t], rest, false, 0, "", bound)
  {
    assert ("," + rest)[1..] == rest;
    match Tokens(rest, false, 0, "")
    case Raised =>
    case Ok(ts) =>
      TokensShort(rest, false, 0, "", bound);
      assert ([cur] + ts)[1..] == ts;
      match (ParseTree(cur), ParseAll(ts, bound))
      case (Ok(t), Ok(ws)) => assert ar + ([t] + ws) == (ar + [t]) + ws;
      case _ =>
  }

  lemma PendingEnd(ar: seq<Wkt>, inString: bool, depth: nat, cur: string, bound: nat)
    requires |cur| <= bound
    ensures Pending(ar, "", inString, depth, cur, bound)
            == if depth != 0 then Raised
               else if cur == "" then Ok(ar)
               else match ParseTree(cur) case Raised => Raised case Ok(t) => Ok(ar + [t])
  {
    hide ParseTree;
    assert [cur][1..] == [];
    assert ar + [] == ar;
    assert Tokens("", inString, 0, cur) == Ok(if cur == "" then [] else [cur]);
    assert ParseAll([], bound) == Ok([]);
    if depth == 0 && cur != "" {
      ParseOne(cur, bound);
    }
  }

  lemma ParseOne(t: string, bound: nat)
    requires |t| <= bound
    ensures ParseAll([t], bound) == match ParseTree(t) case Raised => Raised case Ok(w) => Ok([w])
  {
    hide ParseTree;
    assert [t][1..] == [];
    assert ParseAll([], bound) == Ok([]);
    match ParseTree(t)
    case Raised =>
    case Ok(w) => assert [w] + [] == [w];
  }

  // ---------- printing and the round trip ----------

  /** A tree as it may be written: each leaf with or without quotes. */
  datatype Doc = Text(text: string, quoted: bool) | Group(name: string, members: seq<Doc>)

  function Erase(d: Doc): Wkt {
    match d
    case Text(text, _) => Leaf(text)
    case Group(name, members) => Node(name, EraseAll(members))
  }

  function EraseAll(ds: seq<Doc>): seq<Wkt> {
    if ds == [] then [] else [Erase(ds[0])] + EraseAll(ds[1..])
  }

  function Print(d: Doc): string {
    match d
    case Text(text, quoted) => if quoted then "\"" + text + "\"" else text
    case Group(name, members) => name + "[" + PrintAll(members) + "]"
  }

  function PrintAll(ds: seq<Doc>): string {
    if ds == [] then ""
    else if |ds| == 1 then Print(ds[0])
    else Print(ds[0]) + "," + PrintAll(ds[1..])
  }

  /** The same tree with no quotes. */
  function Bare(d: Doc): Doc {
    match d
    case Text(text, _) => Text(text, false)
    case Group(name, members) => Group(name, BareAll(members))
  }

  function BareAll(ds: seq<Doc>): (r: seq<Doc>)
    ensures |r| == |ds|
  {
    if ds == [] then [] else [Bare(ds[0])] + BareAll(ds[1..])
  }

  predicate Plain(s: string) {
    forall i :: 0 <= i < |s| ==> s[i] != '"' && s[i] != '[' && s[i] != ']' && s[i] != ','
  }

  /** Names and leaves have none of the four special characters, and leaves are not empty. */
  predicate Printable(d: Doc) {
    match d
    case Text(text, _) => text != "" && Plain(text)
    case Group(name, members) => Plain(name) && PrintableAll(members)
  }

  predicate PrintableAll(ds: seq<Doc>) {
    ds != [] ==> Printable(ds[0]) && PrintableAll(ds[1..])
  }

  /** Plain text goes into the current token. */
  lemma {:induction false} PlainTokens(s: string, rest: string, inString: bool, depth: nat, cur: string)
    requires Plain(s)
    ensures Tokens(s + rest, inString, depth, cur) == Tokens(rest, inString, depth, cur + s)
    decreases |s|
  {
    if s == "" {
      assert s + rest == rest && cur + s == cur;
    } else {
      PlainTokens(s[1..], rest, inString, depth, cur + [s[0]]);
      assert (s + rest)[1..] == s[1..] + rest;
      assert (cur + [s[0]]) + s[1..] == cur + s;
    }
  }

  /** One character that is no part of plain text. */
  lemma SpecialToken(c: char, rest: string, inString: bool, depth: nat, cur: string)
    ensures var r := Tokens([c] + rest, inString, depth, cur);
            && (c == '"' ==> r == Tokens(rest, !inString, depth, cur))
            && (c != '"' && inString ==> r == Tokens(rest, true, depth, cur + [c]))
            && (c == '[' && !inString ==> r == Tokens(rest, false, depth + 1, cur + [c]))
            && (c == ']' && !inString && depth > 0 ==> r == Tokens(rest, false, depth - 1, cur + [c]))
            && (c == ',' && !inString && depth > 0 ==> r == Tokens(rest, false, depth, cur + [c]))
  {
  }

  /** A printed tree goes into the current token without its quotes, whatever the depth
      it is met at. */
  lemma {:induction false} PrintedTokens(d: Doc, rest: string, depth: nat, cur: string)
    requires Printable(d)
    ensures Tokens(Print(d) + rest, false, depth, cur) == Tokens(rest, false, depth, cur + Print(Bare(d)))
    decreases d
  {
    hide Tokens;
    match d
    case Text(text, quoted) =>
      if quoted {
        assert Print(d) + rest == ['"'] + (text + (['"'] + rest));
        SpecialToken('"', text + (['"'] + rest), false, depth, cur);
        PlainTokens(text, ['"'] + rest, true, depth, cur);
        SpecialToken('"', rest, true, depth, cur + text);
      } else {
        PlainTokens(text, rest, false, depth, cur);
      }
    case Group(name, members) =>
      var inner, tail := PrintAll(members), [']'] + rest;
      assert Print(d) + rest == name + (['['] + (inner + tail));
      PlainTokens(name, ['['] + (inner + tail), false, depth, cur);
      SpecialToken('[', inner + tail, false, depth, cur + name);
      var cur1 := cur + name + ['['];
      PrintedAllTokens(members, tail, depth + 1, cur1);
      var bare := PrintAll(BareAll(members));
      SpecialToken(']', rest, false, depth + 1, cur1 + bare);
      assert cur1 + bare + [']'] == cur + Print(Bare(d));
  }

  /** Inside brackets that goes for a whole list, commas included. */
  lemma {:induction false} PrintedAllTokens(ds: seq<Doc>, rest: string, depth: nat, cur: string)
    requires PrintableAll(ds) && depth > 0
    ensures Tokens(PrintAll(ds) + rest, false, depth, cur)
            == Tokens(rest, false, depth, cur + PrintAll(BareAll(ds)))
    decreases ds
  {
    hide Tokens;
    var bare := BareAll(ds);
    if ds == [] {
      assert "" + rest == rest && cur + "" == cur;
    } else if |ds| == 1 {
      PrintedTokens(ds[0], rest, depth, cur);
    } else {
      var more := PrintAll(ds[1..]);
      assert PrintAll(ds) + rest == Print(ds[0]) + ([','] + (more + rest));
      PrintedTokens(ds[0], [','] + (more + rest), depth, cur);
      var cur1 := cur + Print(bare[0]);
      SpecialToken(',', more + rest, false, depth, cur1);
      PrintedAllTokens(ds[1..], rest, depth, cur1 + [',']);
      assert bare[1..] == BareAll(ds[1..]);
      assert cur1 + [','] + PrintAll(bare[1..]) == cur + PrintAll(bare);
    }
  }

  function PrintEach(ds: seq<Doc>): (ts: seq<string>)
    ensures |ts| == |ds|
  {
    if ds == [] then [] else [Print(ds[0])] + PrintEach(ds[1..])
  }

  lemma CommaSplits(rest: string, cur: string)
    ensures Tokens([','] + rest, false, 0, cur)
            == match Tokens(rest, false, 0, "") case Raised => Raised case Ok(ts) => Ok([cur] + ts)
  {
  }

  lemma PrintNotEmpty(d: Doc)
    requires Printable(d)
    ensures Print(Bare(d)) != ""
  {
  }

  /** At the top the commas of the list separate the tokens; the depth counter is back at
      zero at the end. */
  lemma {:induction false} TopTokens(ds: seq<Doc>)
    requires PrintableAll(ds)
    ensures Tokens(PrintAll(ds), false, 0, "") == Ok(PrintEach(BareAll(ds)))
    decreases ds
  {
    hide Print, Bare;
    if ds != [] {
      PrintNotEmpty(ds[0]);
      var head := Print(Bare(ds[0]));
      if |ds| == 1 {
        PrintedTokens(ds[0], "", 0, "");
        assert Print(ds[0]) + "" == Print(ds[0]) && "" + head == head;
        assert PrintEach(BareAll(ds)) == [head];
      } else {
        var more := PrintAll(ds[1..]);
        assert PrintAll(ds) == Print(ds[0]) + ([','] + more);
        PrintedTokens(ds[0], [','] + more, 0, "");
        assert "" + head == head;
        CommaSplits(more, head);
        TopTokens(ds[1..]);
      }
    }
  }

  function Size(d: Doc): (n: nat)
    ensures n > 0
  {
    match d
    case Text(_, _) => 1
    case Group(_, members) => 1 + SizeAll(members)
  }

  function SizeAll(ds: seq<Doc>): nat {
    if ds == [] then 0 else Size(ds[0]) + SizeAll(ds[1..])
  }

  lemma {:induction false} BareBare(d: Doc)
    requires Printable(d)
    ensures Size(Bare(d)) == Size(d)
    ensures Printable(Bare(d)) && Bare(Bare(d)) == Bare(d) && Erase(Bare(d)) == Erase(d)
    decreases d
  {
    if d.Group? {
      BareBareAll(d.members);
    }
  }

  lemma {:induction false} BareBareAll(ds: seq<Doc>)
    requires PrintableAll(ds)
    ensures SizeAll(BareAll(ds)) == SizeAll(ds)
    ensures PrintableAll(BareAll(ds)) && BareAll(BareAll(ds)) == BareAll(ds) && EraseAll(BareAll(ds)) == EraseAll(ds)
    decreases ds
  {
    if ds != [] {
      BareBare(ds[0]);
      BareBareAll(ds[1..]);
      assert BareAll(ds)[1..] == BareAll(ds[1..]);
    }
  }

  lemma {:induction false} FindPlain(name: string, rest: string)
    requires Plain(name)
    ensures rest == "" ==> Find(name + rest) == |name|
    ensures rest != "" && rest[0] == '[' ==> Find(name + rest) == |name|
  {
    if name == "" {
      assert name + rest == rest;
    } else {
      FindPlain(name[1..], rest);
      assert (name + rest)[1..] == name[1..] + rest;
    }
  }

  /** A token without quotes parses to its tree. */
  lemma {:induction false} TreeRoundTrip(d: Doc)
    requires Printable(d) && Bare(d) == d
    ensures ParseTree(Print(d)) == Ok(Erase(d))
    decreases Size(d), 0
  {
    hide ParseArray;
    var s := Print(d);
    match d
    case Text(text, _) =>
      FindPlain(text, "");
      assert text + "" == text;
    case Group(name, members) =>
      var inner := PrintAll(members);
      var tail := "[" + inner + "]";
      assert s == name + tail;
      FindPlain(name, tail);
      assert s[..|name|] == name;
      assert Inner(s, |name| + 1) == inner;
      BareBareAll(members);
      ForestRoundTrip(members);
  }

  lemma {:induction false} EachRoundTrip(ds: seq<Doc>, bound: nat)
    requires PrintableAll(ds) && BareAll(ds) == ds
    requires forall i :: 0 <= i < |ds| ==> |PrintEach(ds)[i]| <= bound
    ensures ParseAll(PrintEach(ds), bound) == Ok(EraseAll(ds))
    decreases SizeAll(ds), 1
  {
    hide ParseTree, Print, Erase;
    if ds != [] {
      var ts := PrintEach(ds);
      assert BareAll(ds)[0] == Bare(ds[0]) && BareAll(ds)[1..] == BareAll(ds[1..]);
      TreeRoundTrip(ds[0]);
      assert ts[1..] == PrintEach(ds[1..]);
      EachRoundTrip(ds[1..], bound);
    }
  }

  /** Printing a forest, with or without quotes around each leaf, and parsing it gives
      the forest back. */
  lemma {:induction false} ForestRoundTrip(ds: seq<Doc>)
    requires PrintableAll(ds)
    ensures ParseArray(PrintAll(ds)) == Ok(EraseAll(ds))
    decreases SizeAll(ds), 2
  {
    var s := PrintAll(ds);
    TopTokens(ds);
    TokensShort(s, false, 0, "", |s|);
    BareBareAll(ds);
    EachRoundTrip(BareAll(ds), |s|);
  }

  /** A printed tree parses to itself exactly if it is not a quoted leaf, which keeps its
      quotes when it does not come through the array parser. */
  lemma TreeRoundTripExactly(d: Doc)
    requires Printable(d)
    ensures ParseTree(Print(d)) == Ok(Erase(d)) <==> !(d.Text? && d.quoted)
  {
    hide ParseArray;
    match d
    case Text(text, quoted) =>
      if quoted {
        assert Print(d)[0] == '"' && |Print(d)| == |text| + 2;
      } else {
        TreeRoundTrip(d);
      }
    case Group(name, members) =>
      GroupParsed(name, PrintAll(members));
      ForestRoundTrip(members);
  }

  /** A name and a bracket: the rest but for its last character, whatever that is, is parsed as
      a list. */
  lemma BracketParsed(name: string, inner: string, last: char)
    requires Plain(name)
    ensures ParseTree(name + "[" + inner + [last])
            == match ParseArray(inner) case Raised => Raised case Ok(ws) => Ok(Node(name, ws))
  {
    hide ParseArray;
    var tail := "[" + inner + [last];
    var s := name + "[" + inner + [last];
    assert s == name + tail;
    FindPlain(name, tail);
    assert s[..|name|] == name;
    assert Inner(s, |name| + 1) == inner;
    assert s[0] != '"';
  }

  lemma GroupParsed(name: string, inner: string)
    requires Plain(name)
    ensures ParseTree(name + "[" + inner + "]")
            == match ParseArray(inner) case Raised => Raised case Ok(ws) => Ok(Node(name, ws))
  {
    BracketParsed(name, inner, ']');
  }

  // ---------- quoted leaves with special characters ----------

  predicate Unquoted(s: string) {
    '"' !in s
  }

  /** Inside quotes everything goes into the current token. */
  lemma {:induction false} QuotedTokens(s: string, rest: string, depth: nat, cur: string)
    requires Unquoted(s)
    ensures Tokens(s + rest, true, depth, cur) == Tokens(rest, true, depth, cur + s)
    decreases |s|
  {
    if s == "" {
      assert s + rest == rest && cur + s == cur;
    } else {
      assert s[0] in s;
      QuotedTokens(s[1..], rest, depth, cur + [s[0]]);
      assert (s + rest)[1..] == s[1..] + rest;
      assert (cur + [s[0]]) + s[1..] == cur + s;
    }
  }

  /** Text without quotes and opening brackets is one token exactly if it is not empty and
      has no comma or closing bracket. */
  lemma {:induction false} OneToken(s: string, cur: string)
    requires Unquoted(s) && '[' !in s
    ensures Tokens(s, false, 0, cur) == Ok([cur + s]) <==> cur + s != "" && ']' !in s && ',' !in s
    decreases |s|
  {
    if s == "" {
      assert cur + s == cur;
    } else {
      var c, rest := s[0], s[1..];
      assert c in s && s == [c] + rest;
      if c == ',' {
        assert cur != cur + s;
        assert forall ts: seq<string> :: ([cur] + ts)[0] != [cur + s][0];
      } else if c != ']' {
        OneToken(rest, cur + [c]);
        assert (cur + [c]) + rest == cur + s;
      }
    }
  }

  lemma LeafParsed(s: string, t: string)
    requires Unquoted(t)
    ensures ParseTree(s) == Ok(Leaf(t)) <==> s == t && t != "" && '[' !in t
  {
  }

  /** Text without quotes parses to itself as a single leaf exactly if it is not empty and
      plain. */
  lemma SingleLeaf(t: string)
    requires Unquoted(t)
    ensures ParseArray(t) == Ok([Leaf(t)]) <==> t != "" && Plain(t)
  {
    hide ParseTree, Tokens;
    assert "" + t == t;
    assert Plain(t) <==> Unquoted(t) && '[' !in t && ']' !in t && ',' !in t;
    if '[' !in t {
      OneToken(t, "");
    }
    match Tokens(t, false, 0, "")
    case Raised =>
      assert ParseArray(t) == Raised;
    case Ok(ts) =>
      TokensShort(t, false, 0, "", |t|);
      OnlyLeaf(ts, |t|, t);
  }

  lemma OnlyLeaf(ts: seq<string>, bound: nat, t: string)
    requires Unquoted(t) && forall i :: 0 <= i < |ts| ==> |ts[i]| <= bound
    ensures ParseAll(ts, bound) == Ok([Leaf(t)]) <==> ts == [t] && t != "" && '[' !in t
  {
    hide ParseTree;
    if ts != [] {
      LeafParsed(ts[0], t);
      if |ts| == 1 {
        assert ts == [ts[0]];
        ParseOne(ts[0], bound);
      } else {
        assert ParseAll(ts[1..], bound) != Ok([]);
      }
    }
  }

  /** A quoted member of a group comes back as the leaf it is exactly if it is not empty and
      has none of the special characters: its quotes are gone when the group is parsed. */
  lemma QuotedMemberExactly(name: string, t: string)
    requires Plain(name) && Unquoted(t)
    ensures ParseArray(name + "[\"" + t + "\"]") == Ok([Node(name, [Leaf(t)])]) <==> t != "" && Plain(t)
  {
    hide Tokens, ParseTree, ParseArray;
    var s := name + "[\"" + t + "\"]";
    var t2 := ['"'] + ([']'] + "");
    var t1 := ['['] + (['"'] + (t + t2));
    assert s == name + t1;
    PlainTokens(name, t1, false, 0, "");
    assert "" + name == name;
    SpecialToken('[', ['"'] + (t + t2), false, 0, name);
    var c := name + ['['];
    SpecialToken('"', t + t2, false, 1, c);
    QuotedTokens(t, t2, 1, c);
    SpecialToken('"', [']'] + "", true, 1, c + t);
    SpecialToken(']', "", false, 1, c + t);
    var token := name + "[" + t + "]";
    assert c + t + [']'] == token;
    EmptyTokens(token);
    ParsedToken(s, token);
    GroupParsed(name, t);
    SingleLeaf(t);
  }

  /** At the top level, where the quotes are still there when the text is split, commas and
      closing brackets are safe. */
  lemma QuotedTopExactly(t: string)
    requires Unquoted(t)
    ensures ParseArray("\"" + t + "\"") == Ok([Leaf(t)]) <==> t != "" && '[' !in t
  {
    hide Tokens, ParseTree, ParseArray;
    var s := "\"" + t + "\"";
    assert s == ['"'] + (t + (['"'] + ""));
    SpecialToken('"', t + (['"'] + ""), false, 0, "");
    QuotedTokens(t, ['"'] + "", 0, "");
    assert "" + t == t;
    SpecialToken('"', "", true, 0, t);
    if t != "" {
      EmptyTokens(t);
      ParsedToken(s, t);
      LeafParsed(t, t);
    } else {
      NoTokens(s);
    }
  }

  lemma ParsedToken(s: string, token: string)
    requires Tokens(s, false, 0, "") == Ok([token])
    ensures ParseArray(s) == match ParseTree(token) case Raised => Raised case Ok(w) => Ok([w])
  {
    hide Tokens, ParseTree;
    TokensShort(s, false, 0, "", |s|);
    assert [token][0] == token;
    ParseOne(token, |s|);
  }

  lemma NoTokens(s: string)
    requires Tokens(s, false, 0, "") == Tokens("", false, 0, "")
    ensures ParseArray(s) == Ok([])
  {
  }

  /** Quotes protect a comma at one level only: a quoted leaf with a comma, inside
      brackets, comes back as two leaves. */
  lemma QuotedCommaSplits(name: string, x: string, y: string)
    requires Plain(name) && Plain(x) && Plain(y) && x != "" && y != ""
    ensures ParseArray(name + "[\"" + x + "," + y + "\"]") == Ok([Node(name, [Leaf(x), Leaf(y)])])
  {
    hide Tokens, ParseTree;
    var s := name + "[\"" + x + "," + y + "\"]";
    var t3 := ['"'] + ([']'] + "");
    var t2 := [','] + (y + t3);
    var t1 := ['['] + (['"'] + (x + t2));
    assert s == name + t1;
    PlainTokens(name, t1, false, 0, "");
    assert "" + name == name;
    SpecialToken('[', ['"'] + (x + t2), false, 0, name);
    var c1 := name + ['['];
    SpecialToken('"', x + t2, false, 1, c1);
    PlainTokens(x, t2, true, 1, c1);
    SpecialToken(',', y + t3, true, 1, c1 + x);
    PlainTokens(y, t3, true, 1, c1 + x + [',']);
    var c2 := c1 + x + [','] + y;
    SpecialToken('"', [']'] + "", true, 1, c2);
    SpecialToken(']', "", false, 1, c2);
    var d := Group(name, [Text(x, false), Text(y, false)]);
    PairDoc(name, x, y);
    assert c2 + [']'] == Print(d);
    EmptyTokens(Print(d));
    TreeRoundTrip(d);
    TokensShort(s, false, 0, "", |s|);
    ParseOne(Print(d), |s|);
  }

  lemma PairDoc(name: string, x: string, y: string)
    requires Plain(name) && Plain(x) && Plain(y) && x != "" && y != ""
    ensures var d := Group(name, [Text(x, false), Text(y, false)]);
            && Print(d) == name + "[" + x + "," + y + "]"
            && Printable(d) && Bare(d) == d && Erase(d) == Node(name, [Leaf(x), Leaf(y)])
  {
    var a, b := Text(x, false), Text(y, false);
    assert [a, b][1..] == [b] && [b][1..] == [];
    assert Bare(a) == a && Bare(b) == b && Print(a) == x && Print(b) == y;
    assert PrintAll([b]) == y;
    assert PrintAll([a, b]) == x + "," + y;
    assert BareAll([b]) == [b];
    assert PrintableAll([]) && PrintableAll([b]);
    assert EraseAll([]) == [] && EraseAll([b]) == [Leaf(y)];
    assert EraseAll([a, b]) == [Leaf(x)] + [Leaf(y)];
  }

  lemma EmptyTokens(cur: string)
    requires cur != ""
    ensures Tokens("", false, 0, cur) == Ok([cur])
  {
  }

  // ---------- texts that raise ----------

  /** The text outside quotes, and whether it ends inside them does not matter. */
  function OutsideQuotes(s: string, inString: bool): string {
    if s == "" then ""
    else if s[0] == '"' then OutsideQuotes(s[1..], !inString)
    else if inString then OutsideQuotes(s[1..], true)
    else [s[0]] + OutsideQuotes(s[1..], false)
  }

  function Count(s: string, c: char): nat {
    if s == "" then 0 else (if s[0] == c then 1 else 0) + Count(s[1..], c)
  }

  /** No prefix closes more brackets than it opens, `depth` being open before, and all are
      closed at the end. */
  ghost predicate Balanced(u: string, depth: nat) {
    && (forall k :: 0 <= k <= |u| ==> Count(u[..k], ']') <= depth + Count(u[..k], '['))
    && Count(u, ']') == depth + Count(u, '[')
  }

  /** Splitting raises exactly if the brackets outside quotes do not balance. */
  lemma {:induction false} SplitsExactly(s: string, inString: bool, depth: nat, cur: string)
    ensures Tokens(s, inString, depth, cur).Ok? <==> Balanced(OutsideQuotes(s, inString), depth)
    decreases |s|
  {
    hide Balanced;
    if s == "" {
      BalancedEmpty(depth);
    } else {
      var c, rest := s[0], s[1..];
      if c == '"' {
        SplitsExactly(rest, !inString, depth, cur);
      } else if inString {
        SplitsExactly(rest, true, depth, cur + [c]);
      } else {
        BalancedStep(c, OutsideQuotes(rest, false), depth);
        if c == '[' {
          SplitsExactly(rest, false, depth + 1, cur + [c]);
        } else if c == ']' {
          if depth > 0 {
            SplitsExactly(rest, false, depth - 1, cur + [c]);
          }
        } else if depth == 0 && c == ',' {
          SplitsExactly(rest, false, 0, "");
        } else {
          SplitsExactly(rest, false, depth, cur + [c]);
        }
      }
    }
  }

  lemma BalancedEmpty(depth: nat)
    ensures Balanced("", depth) <==> depth == 0
  {
  }

  lemma BalancedStep(c: char, u: string, depth: nat)
    ensures Balanced([c] + u, depth)
       <==> if c == '[' then Balanced(u, depth + 1)
            else if c == ']' then depth > 0 && Balanced(u, depth - 1)
            else Balanced(u, depth)
  {
    var s := [c] + u;
    var d := if c == '[' then depth + 1 else if c == ']' then depth - 1 else depth;
    CountHead(c, u, '[');
    CountHead(c, u, ']');
    forall k | 0 <= k <= |u|
      ensures Count(s[..k + 1], '[') == (if c == '[' then 1 else 0) + Count(u[..k], '[')
      ensures Count(s[..k + 1], ']') == (if c == ']' then 1 else 0) + Count(u[..k], ']')
    {
      assert s[..k + 1] == [c] + u[..k];
      CountHead(c, u[..k], '[');
      CountHead(c, u[..k], ']');
    }
    if Balanced(s, depth) {
      assert Count(s[..1], ']') <= depth + Count(s[..1], '[');
      assert u[..0] == "";
      forall k | 0 <= k <= |u|
        ensures Count(u[..k], ']') <= d + Count(u[..k], '[')
      {
        assert Count(s[..k + 1], ']') <= depth + Count(s[..k + 1], '[');
      }
    }
    if d >= 0 && Balanced(u, d) {
      forall k | 0 <= k <= |s|
        ensures Count(s[..k], ']') <= depth + Count(s[..k], '[')
      {
        if k > 0 {
          assert Count(u[..k - 1], ']') <= d + Count(u[..k - 1], '[');
          assert Count(s[..(k - 1) + 1], '[') == (if c == '[' then 1 else 0) + Count(u[..k - 1], '[');
        }
      }
    }
  }

  lemma CountHead(c: char, u: string, x: char)
    ensures Count([c] + u, x) == (if c == x then 1 else 0) + Count(u, x)
  {
    assert ([c] + u)[1..] == u;
  }

  /** So unbalanced text raises, and so does an empty member before a comma. */
  lemma Raises(s: string)
    ensures !Balanced(OutsideQuotes(s, false), 0) ==> ParseArray(s).Raised?
    ensures ParseArray("," + s).Raised? && ParseTree("").Raised?
  {
    SplitsExactly(s, false, 0, "");
    EmptyFirst(s);
    hide Tokens, Balanced, OutsideQuotes;
  }

  lemma EmptyFirst(s: string)
    ensures ParseArray("," + s).Raised?
  {
    CommaSplits(s, "");
    hide Tokens;
    if Tokens("," + s, false, 0, "").Ok? {
      TokensShort("," + s, false, 0, "", |"," + s|);
      var ts := Tokens("," + s, false, 0, "").value;
      assert ts[0] == "";
      assert ParseTree("") == Raised;
      assert ParseAll(ts, |"," + s|) == Raised;
    }
  }
}
