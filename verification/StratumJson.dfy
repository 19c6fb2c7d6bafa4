/** The hand-written JSON text helpers of alphanumeric_runner.cpp: escaping strings for submits, and
    splitting and unquoting the arrays of notifies. Strings are byte strings. */
module StratumJson {
  import opened Words

  const QUOTE: byte := 0x22
  const BACKSLASH: byte := 0x5c
  const COMMA: byte := 0x2c

  // ---- json_escape ----

  /** The letter of a two-byte escape, for the bytes that have one. */
  function ShortEscape(c: byte): Option<byte> {
    if c == BACKSLASH || c == QUOTE then Some(c)
    else if c == 8 then Some(0x62)
    else if c == 12 then Some(0x66)
    else if c == 10 then Some(0x6e)
    else if c == 13 then Some(0x72)
    else if c == 9 then Some(0x74)
    else None
  }

  function HexDigit(d: nat): byte
    requires d < 16
  {
    if d < 10 then 0x30 + d else 0x57 + d
  }

  /** u00XX. */
  function UnicodeTail(c: byte): seq<byte>
    requires c < 0x20
  {
    [0x75, 0x30, 0x30, HexDigit(c / 16), HexDigit(c % 16)]
  }

  function EscapeByte(c: byte): seq<byte> {
    if ShortEscape(c).Some? then [BACKSLASH, ShortEscape(c).value]
    else if c < 0x20 then [BACKSLASH] + UnicodeTail(c)
    else [c]
  }

  function Escape(s: seq<byte>): seq<byte> {
    if s == [] then [] else EscapeByte(s[0]) + Escape(s[1..])
  }

  method JsonEscape(s: seq<byte>) returns (out: seq<byte>)
    ensures out == Escape(s)
  {
    out := [];
    for i := 0 to |s|
      invariant out + Escape(s[i..]) == Escape(s)
    {
      assert s[i..][0] == s[i] && s[i..][1..] == s[i + 1..];
      assert out + Escape(s[i..]) == out + EscapeByte(s[i]) + Escape(s[i + 1..]);
      out := out + EscapeByte(s[i]);
    }
  }

  // ---- trim_copy ----

  predicate IsSpace(c: byte) { c == 0x20 || 9 <= c <= 13 }

  function TrimFront(s: seq<byte>): seq<byte> {
    if s != [] && IsSpace(s[0]) then TrimFront(s[1..]) else s
  }

  function TrimBack(s: seq<byte>): seq<byte> {
    if s != [] && IsSpace(s[|s| - 1]) then TrimBack(s[..|s| - 1]) else s
  }

  function Trim(s: seq<byte>): seq<byte> { TrimBack(TrimFront(s)) }

  predicate AllSpace(s: seq<byte>) { forall i :: 0 <= i < |s| ==> IsSpace(s[i]) }

  /** The insignificant white space of section 2 of RFC 8259: space, tab, line feed and carriage return. */
  predicate StandardSpace(s: seq<byte>) { forall i :: 0 <= i < |s| ==> s[i] in {0x20, 0x09, 0x0a, 0x0d} }

  /** All of it counts as space here, and no printable character does. */
  lemma SpaceIsStandard(s: seq<byte>, c: byte)
    ensures StandardSpace(s) ==> AllSpace(s)
    ensures c > 0x20 || c == 0 ==> !IsSpace(c)
  {
  }

  lemma {:induction false} TrimFrontSplits(s: seq<byte>) returns (lead: seq<byte>)
    ensures s == lead + TrimFront(s) && AllSpace(lead)
    ensures TrimFront(s) != [] ==> !IsSpace(TrimFront(s)[0])
  {
    if s != [] && IsSpace(s[0]) {
      var l := TrimFrontSplits(s[1..]);
      lead := [s[0]] + l;
    } else {
      lead := [];
    }
  }

  lemma {:induction false} TrimBackSplits(s: seq<byte>) returns (trail: seq<byte>)
    ensures s == TrimBack(s) + trail && AllSpace(trail)
    ensures TrimBack(s) != [] ==> !IsSpace(TrimBack(s)[|TrimBack(s)| - 1])
    decreases |s|
  {
    if s != [] && IsSpace(s[|s| - 1]) {
      var t := TrimBackSplits(s[..|s| - 1]);
      trail := t + [s[|s| - 1]];
    } else {
      trail := [];
    }
  }

  /** Trimming removes white space from both ends, all of it and nothing else. */
  lemma TrimSplits(s: seq<byte>) returns (lead: seq<byte>, trail: seq<byte>)
    ensures s == lead + Trim(s) + trail && AllSpace(lead) && AllSpace(trail)
    ensures Trim(s) != [] ==> !IsSpace(Trim(s)[0]) && !IsSpace(Trim(s)[|Trim(s)| - 1])
  {
    lead := TrimFrontSplits(s);
    trail := TrimBackSplits(TrimFront(s));
  }

  method TrimCopy(s: seq<byte>) returns (t: seq<byte>)
    ensures t == Trim(s)
  {
    t := s;
    while t != [] && IsSpace(t[0])
      invariant TrimFront(t) == TrimFront(s)
    {
      t := t[1..];
    }
    while t != [] && IsSpace(t[|t| - 1])
      invariant TrimBack(t) == Trim(s)
    {
      t := t[..|t| - 1];
    }
  }

  // ---- split_json_array_top_level ----

  datatype Scan = Scan(out: seq<seq<byte>>, cur: seq<byte>, inStr: bool, esc: bool, depth: int)

  /** The scan outside strings and brackets. */
  function Outside(out: seq<seq<byte>>, cur: seq<byte>): Scan { Scan(out, cur, false, false, 0) }

  /** One character of the scan. */
  function Feed(st: Scan, ch: byte): Scan {
    var st' := st.(cur := st.cur + [ch]);
    if st.inStr then
      if st.esc then st'.(esc := false)
      else if ch == BACKSLASH then st'.(esc := true)
      else if ch == QUOTE then st'.(inStr := false)
      else st'
    else if ch == QUOTE then st'.(inStr := true)
    else if ch == 0x5b || ch == 0x7b then st'.(depth := st.depth + 1)
    else if ch == 0x5d || ch == 0x7d then st'.(depth := st.depth - 1)
    else if ch == COMMA && st.depth == 0 then st.(out := st.out + [Trim(st.cur)], cur := [])
    else st'
  }

  function FeedAll(st: Scan, body: seq<byte>): Scan
    decreases |body|
  {
    if body == [] then st else FeedAll(Feed(st, body[0]), body[1..])
  }

  function Split(body: seq<byte>): seq<seq<byte>> {
    var st := FeedAll(Outside([], []), body);
    if st.cur != [] || body != [] then st.out + [Trim(st.cur)] else st.out
  }

  method SplitArray(body: seq<byte>) returns (out: seq<seq<byte>>)
    ensures out == Split(body)
  {
    out := [];
    var cur, inStr, esc, depth := [], false, false, 0;
    for i := 0 to |body|
      invariant FeedAll(Scan(out, cur, inStr, esc, depth), body[i..]) == FeedAll(Outside([], []), body)
    {
      var ch := body[i];
      assert body[i..][0] == ch && body[i..][1..] == body[i + 1..];
      if inStr {
        cur := cur + [ch];
        if esc { esc := false; continue; }
        if ch == BACKSLASH { esc := true; continue; }
        if ch == QUOTE { inStr := false; }
        continue;
      }
      if ch == QUOTE { inStr := true; cur := cur + [ch]; continue; }
      if ch == 0x5b || ch == 0x7b { depth := depth + 1; cur := cur + [ch]; continue; }
      if ch == 0x5d || ch == 0x7d { depth := depth - 1; cur := cur + [ch]; continue; }
      if ch == COMMA && depth == 0 {
        var piece := TrimCopy(cur);
        out, cur := out + [piece], [];
        continue;
      }
      cur := cur + [ch];
    }
    if cur != [] || body != [] {
      var piece := TrimCopy(cur);
      out := out + [piece];
    }
  }

  // ---- unquote_json_string ----

  function UnescapeByte(c: byte): byte {
    if c == 0x6e then 10
    else if c == 0x72 then 13
    else if c == 0x74 then 9
    else if c == 0x62 then 8
    else if c == 0x66 then 12
    else c
  }

  /** Removing escapes; `esc` says that a backslash came just before. A trailing backslash is dropped. */
  function Unescape(s: seq<byte>, esc: bool): seq<byte> {
    if s == [] then []
    else if esc then [UnescapeByte(s[0])] + Unescape(s[1..], false)
    else if s[0] == BACKSLASH then Unescape(s[1..], true)
    else [s[0]] + Unescape(s[1..], false)
  }

  function StripQuotes(t: seq<byte>): seq<byte> {
    if |t| >= 2 && t[0] == QUOTE && t[|t| - 1] == QUOTE then t[1..|t| - 1] else t
  }

  function Unquote(s: seq<byte>): seq<byte> { Unescape(StripQuotes(Trim(s)), false) }

  method UnquoteString(s: seq<byte>) returns (out: seq<byte>)
    ensures out == Unquote(s)
  {
    var t := TrimCopy(s);
    t := StripQuotes(t);
    out := [];
    var esc := false;
    for i := 0 to |t|
      invariant out + Unescape(t[i..], esc) == Unescape(t, false)
    {
      var ch := t[i];
      assert t[i..][0] == ch && t[i..][1..] == t[i + 1..];
      if esc {
        assert out + Unescape(t[i..], esc) == (out + [UnescapeByte(ch)]) + Unescape(t[i + 1..], false);
        out := out + [UnescapeByte(ch)];
        esc := false;
      } else if ch == BACKSLASH {
        esc := true;
      } else {
        assert out + Unescape(t[i..], esc) == (out + [ch]) + Unescape(t[i + 1..], false);
        out := out + [ch];
      }
    }
  }

  // ---- What survives the round trip ----

  /** A control character without a two-byte escape comes back as the five bytes u00XX. */
  predicate Survives(c: byte) { c >= 0x20 || ShortEscape(c).Some? }

  predicate Clean(s: seq<byte>) { forall i :: 0 <= i < |s| ==> Survives(s[i]) }

  function DecodedByte(c: byte): seq<byte> { if Survives(c) then [c] else UnicodeTail(c) }

  function Decoded(s: seq<byte>): seq<byte> {
    if s == [] then [] else DecodedByte(s[0]) + Decoded(s[1..])
  }

  /** Exactly the strings without such control characters come back unchanged. */
  lemma {:induction false} DecodedUnchanged(s: seq<byte>)
    ensures |Decoded(s)| >= |s|
    ensures Decoded(s) == s <==> Clean(s)
  {
    if s != [] {
      var c, rest := s[0], s[1..];
      DecodedUnchanged(rest);
      assert s == [c] + rest;
      assert Clean(s) <==> Survives(c) && Clean(rest);
      if Survives(c) {
        assert Decoded(s)[1..] == Decoded(rest);
      }
    }
  }

  lemma UnescapeEscapedByte(c: byte, t: seq<byte>)
    ensures Unescape(EscapeByte(c) + t, false) == DecodedByte(c) + Unescape(t, false)
  {
    var e := EscapeByte(c) + t;
    if ShortEscape(c).Some? {
      assert e[1..] == [ShortEscape(c).value] + t && e[1..][1..] == t;
      assert UnescapeByte(ShortEscape(c).value) == c;
    } else if c < 0x20 {
      UnescapeUnicode(c, t);
    } else {
      assert e[1..] == t;
    }
  }

  lemma UnescapeUnicode(c: byte, t: seq<byte>)
    requires c < 0x20
    ensures Unescape([BACKSLASH] + UnicodeTail(c) + t, false) == UnicodeTail(c) + Unescape(t, false)
  {
    var e, u := [BACKSLASH] + UnicodeTail(c) + t, UnicodeTail(c);
    assert e[1..] == u + t;
    PlainRun(u[1..], t);
    assert (u + t)[1..] == u[1..] + t && [u[0]] + u[1..] == u;
    assert UnescapeByte(u[0]) == u[0];
    assert Unescape(e, false) == [u[0]] + (u[1..] + Unescape(t, false));
  }

  /** Characters other than the backslash stand for themselves. */
  lemma {:induction false} PlainRun(p: seq<byte>, t: seq<byte>)
    requires forall i :: 0 <= i < |p| ==> p[i] != BACKSLASH
    ensures Unescape(p + t, false) == p + Unescape(t, false)
  {
    if p == [] {
      assert p + t == t;
    } else {
      PlainRun(p[1..], t);
      assert (p + t)[1..] == p[1..] + t;
      assert p == [p[0]] + p[1..];
    }
  }

  lemma {:induction false} UnescapeEscape(s: seq<byte>)
    ensures Unescape(Escape(s), false) == Decoded(s)
  {
    if s != [] {
      UnescapeEscape(s[1..]);
      UnescapeEscapedByte(s[0], Escape(s[1..]));
    }
  }

  // ---- Any JSON string ----

  /** The meaning of the two-byte escapes in section 7 of RFC 8259; None for u and for what it does not allow. */
  function Meaning(letter: byte): Option<byte> {
    match letter
    case 0x22 => Some(0x22)
    case 0x5c => Some(0x5c)
    case 0x2f => Some(0x2f)
    case 0x62 => Some(0x08)
    case 0x66 => Some(0x0c)
    case 0x6e => Some(0x0a)
    case 0x72 => Some(0x0d)
    case 0x74 => Some(0x09)
    case _ => None
  }

  function HexValue(c: byte): Option<nat> {
    if 0x30 <= c <= 0x39 then Some(c - 0x30)
    else if 0x61 <= c <= 0x66 then Some(c - 0x57)
    else if 0x41 <= c <= 0x46 then Some(c - 0x37)
    else None
  }

  /** The code unit of four hexadecimal digits. */
  function CodeUnit(a: byte, b: byte, c: byte, d: byte): Option<nat> {
    if HexValue(a).Some? && HexValue(b).Some? && HexValue(c).Some? && HexValue(d).Some?
    then Some(((HexValue(a).value * 16 + HexValue(b).value) * 16 + HexValue(c).value) * 16 + HexValue(d).value)
    else None
  }

  function Prepend(c: byte, rest: Option<seq<byte>>): Option<seq<byte>> {
    if rest.Some? then Some([c] + rest.value) else None
  }

  /** The content of a string between its quotes as RFC 8259 reads it: no bare quote or control character, two-byte
      escapes by their meaning, and u escapes of ASCII characters (others are not needed here). */
  function StandardRead(s: seq<byte>): Option<seq<byte>>
    decreases |s|
  {
    if s == [] then Some([])
    else if s[0] != BACKSLASH then (if s[0] < 0x20 || s[0] == QUOTE then None else Prepend(s[0], StandardRead(s[1..])))
    else if |s| >= 6 && s[1] == 0x75 then
      var unit := CodeUnit(s[2], s[3], s[4], s[5]);
      if unit.Some? && unit.value < 0x80 then Prepend(unit.value, StandardRead(s[6..])) else None
    else if |s| >= 2 && Meaning(s[1]).Some? then Prepend(Meaning(s[1]).value, StandardRead(s[2..]))
    else None
  }

  lemma HexOfByte(c: byte)
    requires c < 0x20
    ensures var u := UnicodeTail(c); u[0] == 0x75 && CodeUnit(u[1], u[2], u[3], u[4]) == Some(c)
  {
  }

  lemma ShortMeaning(c: byte)
    ensures ShortEscape(c).Some? ==> Meaning(ShortEscape(c).value) == Some(c)
  {
  }

  lemma ReadEscapedByte(c: byte, t: seq<byte>, e: seq<byte>, rest: seq<byte>)
    requires e == EscapeByte(c) + t && StandardRead(t) == Some(rest)
    ensures StandardRead(e) == Some([c] + rest)
  {
    if ShortEscape(c).Some? {
      ShortMeaning(c);
      assert e[1] == ShortEscape(c).value && e[2..] == t;
    } else if c < 0x20 {
      HexOfByte(c);
      assert e[1..6] == UnicodeTail(c) && e[6..] == t;
      assert e[1] == 0x75 && CodeUnit(e[2], e[3], e[4], e[5]) == Some(c);
    } else {
      assert e[1..] == t;
    }
  }

  /** A standard JSON reader gets back every string that is escaped here, byte for byte. */
  lemma {:induction false} EscapeIsStandard(s: seq<byte>)
    ensures StandardRead(Escape(s)) == Some(s)
  {
    if s != [] {
      var c, rest := s[0], s[1..];
      EscapeIsStandard(rest);
      ReadEscapedByte(c, Escape(rest), Escape(s), rest);
      assert s == [c] + rest;
    }
  }

  /** A character of a string body: as it is, or a backslash and the character after it. */
  datatype Char = Bare(c: byte) | Escaped(letter: byte)

  function CharText(ch: Char): seq<byte> { if ch.Bare? then [ch.c] else [BACKSLASH, ch.letter] }

  function CharsText(chars: seq<Char>): seq<byte> {
    if chars == [] then [] else CharText(chars[0]) + CharsText(chars[1..])
  }

  /** What a character stands for: an escape has its standard meaning, and the letter itself if it has none. */
  function CharMeaning(ch: Char): byte {
    if ch.Bare? then ch.c else if Meaning(ch.letter).Some? then Meaning(ch.letter).value else ch.letter
  }

  function CharMeanings(chars: seq<Char>): seq<byte> {
    if chars == [] then [] else [CharMeaning(chars[0])] + CharMeanings(chars[1..])
  }

  predicate BaresOk(chars: seq<Char>) { forall i :: 0 <= i < |chars| && chars[i].Bare? ==> chars[i].c != BACKSLASH }

  lemma UnescapeChar(ch: Char, t: seq<byte>, e: seq<byte>, rest: seq<byte>)
    requires (ch.Bare? ==> ch.c != BACKSLASH) && e == CharText(ch) + t && Unescape(t, false) == rest
    ensures Unescape(e, false) == [CharMeaning(ch)] + rest
  {
    if ch.Bare? {
      assert e[1..] == t;
    } else {
      assert e[1..] == [ch.letter] + t && e[1..][1..] == t;
    }
  }

  lemma Assoc(a: seq<byte>, b: seq<byte>, c: seq<byte>)
    ensures (a + b) + c == a + (b + c)
  {
  }

  /** Unescaping gives every character its meaning; `tail` is empty or a last backslash, which is dropped. */
  lemma {:induction false} UnescapeChars(chars: seq<Char>, tail: seq<byte>)
    requires BaresOk(chars) && (tail == [] || tail == [BACKSLASH])
    ensures Unescape(CharsText(chars) + tail, false) == CharMeanings(chars)
    decreases |chars|
  {
    if chars == [] {
      assert CharsText(chars) + tail == tail;
    } else {
      var rest := chars[1..];
      assert forall i :: 0 <= i < |rest| ==> rest[i] == chars[i + 1];
      UnescapeChars(rest, tail);
      Assoc(CharText(chars[0]), CharsText(rest), tail);
      UnescapeChar(chars[0], CharsText(rest) + tail, CharsText(chars) + tail, CharMeanings(rest));
    }
  }

  /** A quoted string of any characters, with white space around it, is unquoted to their meanings. */
  lemma UnquoteChars(lead: seq<byte>, chars: seq<Char>, trail: seq<byte>)
    requires BaresOk(chars) && AllSpace(lead) && AllSpace(trail)
    ensures Unquote(lead + ([QUOTE] + CharsText(chars) + [QUOTE]) + trail) == CharMeanings(chars)
  {
    var x := [QUOTE] + CharsText(chars) + [QUOTE];
    TrimPadding(lead, x, trail);
    assert x[1..|x| - 1] == CharsText(chars);
    UnescapeChars(chars, []);
    assert CharsText(chars) + [] == CharsText(chars);
  }

  lemma {:induction false} UnescapePlain(t: seq<byte>)
    requires BACKSLASH !in t
    ensures Unescape(t, false) == t
  {
    if t != [] {
      UnescapePlain(t[1..]);
      assert t == [t[0]] + t[1..];
    }
  }

  /** Anything else without a backslash, such as a number, a truth value or null, is only trimmed. */
  lemma UnquoteOther(lead: seq<byte>, t: seq<byte>, trail: seq<byte>)
    requires AllSpace(lead) && AllSpace(trail) && Solid(t) && BACKSLASH !in t && t[0] != QUOTE
    ensures Unquote(lead + t + trail) == t
  {
    TrimPadding(lead, t, trail);
    UnescapePlain(t);
  }

  // ---- Where the splitter cuts ----

  /** Pieces with a comma between any two. */
  function Commas(pieces: seq<seq<byte>>): seq<byte> {
    if pieces == [] then []
    else if |pieces| == 1 then pieces[0]
    else Commas(pieces[..|pieces| - 1]) + [COMMA] + pieces[|pieces| - 1]
  }

  function TrimAll(pieces: seq<seq<byte>>): (r: seq<seq<byte>>)
    ensures |r| == |pieces|
  {
    seq(|pieces|, i requires 0 <= i < |pieces| => Trim(pieces[i]))
  }

  lemma {:induction false} FeedConcat(st: Scan, a: seq<byte>, b: seq<byte>)
    ensures FeedAll(st, a + b) == FeedAll(FeedAll(st, a), b)
    decreases |a|
  {
    if a == [] {
      assert a + b == b;
    } else {
      assert (a + b)[1..] == a[1..] + b;
      FeedConcat(Feed(st, a[0]), a[1..], b);
    }
  }

  lemma FeedOne(st: Scan, ch: byte)
    ensures FeedAll(st, [ch]) == Feed(st, ch)
  {
    assert [ch][1..] == [];
  }

  lemma FeedLast(st: Scan, a: seq<byte>, ch: byte)
    ensures FeedAll(st, a + [ch]) == Feed(FeedAll(st, a), ch)
  {
    FeedConcat(st, a, [ch]);
    FeedOne(FeedAll(st, a), ch);
  }

  /** What the scanner makes of a piece on its own. */
  function Alone(p: seq<byte>): Scan { FeedAll(Outside([], []), p) }

  /** A piece that the scanner does not cut and that it leaves outside strings and brackets. */
  predicate Closed(p: seq<byte>) { Alone(p) == Outside([], p) }

  /** A piece that the scanner does not cut. */
  predicate Uncut(p: seq<byte>) { Alone(p).out == [] && Alone(p).cur == p }

  /** Cut at top-level commas, all of them and no other. */
  predicate CutAtTop(pieces: seq<seq<byte>>) {
    && pieces != []
    && (forall i :: 0 <= i < |pieces| - 1 ==> Closed(pieces[i]))
    && Uncut(pieces[|pieces| - 1])
  }

  /** The scan after the last of some pieces: the ones before are out, trimmed, and the last is pending. */
  predicate Holds(st: Scan, pieces: seq<seq<byte>>)
    requires pieces != []
  {
    var last := pieces[|pieces| - 1];
    && st.out == TrimAll(pieces[..|pieces| - 1])
    && st == Alone(last).(out := st.out)
    && (st.esc ==> st.inStr)
  }

  lemma CommasLast(pieces: seq<seq<byte>>, ch: byte)
    requires pieces != []
    ensures Commas(pieces[|pieces| - 1 := pieces[|pieces| - 1] + [ch]]) == Commas(pieces) + [ch]
  {
    var n := |pieces| - 1;
    assert pieces[n := pieces[n] + [ch]][..n] == pieces[..n];
  }

  predicate TopComma(st: Scan, ch: byte) { ch == COMMA && !st.inStr && st.depth == 0 }

  lemma CutHere(st: Scan, pieces: seq<seq<byte>>, ch: byte)
    requires CutAtTop(pieces) && Holds(st, pieces) && TopComma(st, ch)
    ensures CutAtTop(pieces + [[]]) && Holds(Feed(st, ch), pieces + [[]])
  {
    var n := |pieces| - 1;
    assert (pieces + [[]])[..n + 1] == pieces;
    assert TrimAll(pieces) == TrimAll(pieces[..n]) + [Trim(pieces[n])];
  }

  lemma Lengthen(st: Scan, pieces: seq<seq<byte>>, ch: byte)
    requires CutAtTop(pieces) && Holds(st, pieces) && !TopComma(st, ch)
    ensures var p := pieces[|pieces| - 1 := pieces[|pieces| - 1] + [ch]]; CutAtTop(p) && Holds(Feed(st, ch), p)
  {
    var n := |pieces| - 1;
    FeedLast(Outside([], []), pieces[n], ch);
    assert pieces[n := pieces[n] + [ch]][..n] == pieces[..n];
  }

  /** The next character lengthens the last piece or closes it. */
  lemma CutOn(st: Scan, pieces: seq<seq<byte>>, ch: byte) returns (pieces': seq<seq<byte>>)
    requires CutAtTop(pieces) && Holds(st, pieces)
    ensures CutAtTop(pieces') && Holds(Feed(st, ch), pieces')
    ensures Commas(pieces') == Commas(pieces) + [ch]
  {
    var n := |pieces| - 1;
    if TopComma(st, ch) {
      pieces' := pieces + [[]];
      CutHere(st, pieces, ch);
      assert pieces'[..n + 1] == pieces;
    } else {
      pieces' := pieces[n := pieces[n] + [ch]];
      Lengthen(st, pieces, ch);
      CommasLast(pieces, ch);
    }
  }

  lemma {:induction false} CutScan(body: seq<byte>) returns (pieces: seq<seq<byte>>)
    ensures CutAtTop(pieces) && Commas(pieces) == body && Holds(Alone(body), pieces)
    decreases |body|
  {
    if body == [] {
      pieces := [[]];
      assert TrimAll(pieces[..0]) == [];
    } else {
      var before := CutScan(body[..|body| - 1]);
      FeedLast(Outside([], []), body[..|body| - 1], body[|body| - 1]);
      assert body == body[..|body| - 1] + [body[|body| - 1]];
      pieces := CutOn(Alone(body[..|body| - 1]), before, body[|body| - 1]);
    }
  }

  lemma SplitHeld(body: seq<byte>, pieces: seq<seq<byte>>)
    requires body != [] && CutAtTop(pieces) && Holds(Alone(body), pieces)
    ensures Split(body) == TrimAll(pieces)
  {
    var n := |pieces| - 1;
    assert TrimAll(pieces) == TrimAll(pieces[..n]) + [Trim(pieces[n])];
  }

  /** Every body is its pieces with commas between them, trimmed on output and cut at the top-level commas
      alone: nothing is lost, added or moved. */
  lemma SplitCuts(body: seq<byte>) returns (pieces: seq<seq<byte>>)
    requires body != []
    ensures CutAtTop(pieces) && Commas(pieces) == body && Split(body) == TrimAll(pieces)
  {
    pieces := CutScan(body);
    SplitHeld(body, pieces);
  }

  /** Pieces that are already out have no influence on the scan. */
  lemma {:induction false} FeedBehind(st: Scan, out: seq<seq<byte>>, p: seq<byte>)
    ensures FeedAll(st.(out := out + st.out), p) == var r := FeedAll(st, p); r.(out := out + r.out)
    decreases |p|
  {
    if p != [] {
      var st', ch := st.(out := out + st.out), p[0];
      assert out + (st.out + [Trim(st.cur)]) == out + st.out + [Trim(st.cur)];
      assert Feed(st', ch) == Feed(st, ch).(out := out + Feed(st, ch).out);
      FeedBehind(Feed(st, ch), out, p[1..]);
    }
  }

  lemma FeedFrom(out: seq<seq<byte>>, p: seq<byte>)
    ensures FeedAll(Outside(out, []), p) == Alone(p).(out := out + Alone(p).out)
  {
    FeedBehind(Outside([], []), out, p);
    assert out + [] == out;
  }

  lemma {:induction false} ScanPieces(pieces: seq<seq<byte>>)
    requires CutAtTop(pieces)
    ensures Alone(Commas(pieces)) == Alone(pieces[|pieces| - 1]).(out := TrimAll(pieces[..|pieces| - 1]))
    decreases |pieces|
  {
    var n := |pieces| - 1;
    var before, last := pieces[..n], pieces[n];
    if n == 0 {
      assert TrimAll(before) == [];
    } else {
      var front, mid := before[..n - 1], before[n - 1];
      ScanPieces(before);
      FeedConcat(Outside([], []), Commas(before) + [COMMA], last);
      FeedLast(Outside([], []), Commas(before), COMMA);
      assert TrimAll(front) + [Trim(mid)] == TrimAll(before);
      FeedFrom(TrimAll(before), last);
      assert TrimAll(before) + [] == TrimAll(before);
    }
  }

  /** And pieces without a top-level comma, all but the last closed, are what the splitter gives back. */
  lemma SplitCommas(pieces: seq<seq<byte>>)
    requires CutAtTop(pieces) && Commas(pieces) != []
    ensures Split(Commas(pieces)) == TrimAll(pieces)
  {
    ScanPieces(pieces);
    var n := |pieces| - 1;
    assert TrimAll(pieces) == TrimAll(pieces[..n]) + [Trim(pieces[n])];
  }

  // ---- Quoted strings ----

  function Quoted(s: seq<byte>): seq<byte> { [QUOTE] + Escape(s) + [QUOTE] }

  function QuotedAll(ss: seq<seq<byte>>): (r: seq<seq<byte>>)
    ensures |r| == |ss|
  {
    seq(|ss|, i requires 0 <= i < |ss| => Quoted(ss[i]))
  }

  function Join(ss: seq<seq<byte>>): seq<byte> { Commas(QuotedAll(ss)) }

  lemma TrimQuoted(s: seq<byte>)
    ensures Trim(Quoted(s)) == Quoted(s)
  {
  }

  function Collect(st: Scan, p: seq<byte>): Scan { st.(cur := st.cur + p) }

  lemma CollectConcat(st: Scan, a: seq<byte>, b: seq<byte>)
    ensures Collect(Collect(st, a), b) == Collect(st, a + b)
  {
    assert st.cur + a + b == st.cur + (a + b);
  }

  /** Text that is collected, whatever comes before it, as long as that is not an open string. */
  ghost predicate Inert(p: seq<byte>) { forall st: Scan :: Ready(st) ==> FeedAll(st, p) == Collect(st, p) }

  predicate Ready(st: Scan) { !st.inStr && !st.esc && st.depth >= 0 }

  lemma InertIsClosed(p: seq<byte>)
    requires Inert(p)
    ensures Closed(p) && Uncut(p)
  {
    assert Ready(Outside([], []));
    assert [] + p == p;
  }

  predicate Plain(p: seq<byte>) { forall i :: 0 <= i < |p| ==> p[i] != BACKSLASH && p[i] != QUOTE }

  /** Inside a string, characters other than the quote and the backslash are just collected. */
  lemma {:induction false} FeedPlain(st: Scan, p: seq<byte>)
    requires st.inStr && !st.esc && Plain(p)
    ensures FeedAll(st, p) == Collect(st, p)
    decreases |p|
  {
    if p == [] {
      assert st.cur + p == st.cur;
    } else {
      FeedPlain(Feed(st, p[0]), p[1..]);
      CollectConcat(st, [p[0]], p[1..]);
      assert [p[0]] + p[1..] == p;
    }
  }

  lemma FeedPair(st: Scan, x: byte)
    requires st.inStr && !st.esc
    ensures FeedAll(st, [BACKSLASH, x]) == Collect(st, [BACKSLASH, x])
  {
    FeedConcat(st, [BACKSLASH], [x]);
    FeedOne(st, BACKSLASH);
    FeedOne(Feed(st, BACKSLASH), x);
    CollectConcat(st, [BACKSLASH], [x]);
    assert [BACKSLASH] + [x] == [BACKSLASH, x];
  }

  lemma UnicodeIsPlain(c: byte)
    requires c < 0x20
    ensures Plain(UnicodeTail(c))
  {
  }

  /** An escaped byte never ends the string it is part of. */
  lemma FeedEscapedByte(st: Scan, c: byte)
    requires st.inStr && !st.esc
    ensures FeedAll(st, EscapeByte(c)) == Collect(st, EscapeByte(c))
  {
    if ShortEscape(c).Some? {
      FeedPair(st, ShortEscape(c).value);
    } else if c < 0x20 {
      var u := UnicodeTail(c);
      UnicodeIsPlain(c);
      FeedPair(st, u[0]);
      FeedConcat(st, [BACKSLASH, u[0]], u[1..]);
      FeedPlain(Collect(st, [BACKSLASH, u[0]]), u[1..]);
      CollectConcat(st, [BACKSLASH, u[0]], u[1..]);
      assert EscapeByte(c) == [BACKSLASH, u[0]] + u[1..];
    } else {
      FeedPlain(st, [c]);
    }
  }

  lemma {:induction false} FeedEscaped(st: Scan, s: seq<byte>)
    requires st.inStr && !st.esc
    ensures FeedAll(st, Escape(s)) == Collect(st, Escape(s))
    decreases |s|
  {
    if s == [] {
      assert st.cur + [] == st.cur;
    } else {
      var e, rest := EscapeByte(s[0]), Escape(s[1..]);
      FeedConcat(st, e, rest);
      FeedEscapedByte(st, s[0]);
      FeedEscaped(Collect(st, e), s[1..]);
      CollectConcat(st, e, rest);
    }
  }

  lemma FeedOpened(st: Scan, s: seq<byte>)
    requires Ready(st)
    ensures FeedAll(st, [QUOTE] + Escape(s)) == Collect(st, [QUOTE] + Escape(s)).(inStr := true)
  {
    var inside := Collect(st, [QUOTE]).(inStr := true);
    FeedConcat(st, [QUOTE], Escape(s));
    FeedOne(st, QUOTE);
    FeedEscaped(inside, s);
    CollectConcat(st, [QUOTE], Escape(s));
  }

  lemma FeedQuoted(st: Scan, s: seq<byte>)
    requires Ready(st)
    ensures FeedAll(st, Quoted(s)) == Collect(st, Quoted(s))
  {
    var front := [QUOTE] + Escape(s);
    FeedOpened(st, s);
    FeedLast(st, front, QUOTE);
    CollectConcat(st, front, [QUOTE]);
  }

  lemma QuotedIsInert(s: seq<byte>)
    ensures Inert(Quoted(s))
  {
    forall st: Scan | Ready(st) ensures FeedAll(st, Quoted(s)) == Collect(st, Quoted(s)) { FeedQuoted(st, s); }
  }

  // ---- Whole JSON values ----

  /** A JSON value without inner white space; a token is a number, a truth value or null. */
  datatype Value =
    | Text(text: seq<byte>)
    | Token(token: seq<byte>)
    | Arr(items: seq<Value>)
    | Obj(fields: seq<Field>)

  datatype Field = Field(name: seq<byte>, value: Value)

  /** A character that is neither white space nor structure. */
  predicate TokenByte(c: byte) {
    !IsSpace(c) && c != QUOTE && c != COMMA && c != 0x5b && c != 0x5d && c != 0x7b && c != 0x7d
  }

  predicate WellFormed(v: Value) {
    match v
    case Text(_) => true
    case Token(t) => t != [] && forall i :: 0 <= i < |t| ==> TokenByte(t[i])
    case Arr(items) => forall i :: 0 <= i < |items| ==> WellFormed(items[i])
    case Obj(fields) => forall i :: 0 <= i < |fields| ==> WellFormed(fields[i].value)
  }

  function Render(v: Value): seq<byte> {
    match v
    case Text(s) => Quoted(s)
    case Token(t) => t
    case Arr(items) => [0x5b] + Commas(seq(|items|, i requires 0 <= i < |items| => Render(items[i]))) + [0x5d]
    case Obj(fields) =>
      [0x7b] + Commas(seq(|fields|, i requires 0 <= i < |fields| => Named(fields[i].name, Render(fields[i].value)))) + [0x7d]
  }

  function Named(name: seq<byte>, value: seq<byte>): seq<byte> { Quoted(name) + [0x3a] + value }

  lemma {:induction false} FeedToken(st: Scan, t: seq<byte>)
    requires Ready(st) && forall i :: 0 <= i < |t| ==> TokenByte(t[i])
    ensures FeedAll(st, t) == Collect(st, t)
    decreases |t|
  {
    if t == [] {
      assert st.cur + t == st.cur;
    } else {
      FeedToken(Feed(st, t[0]), t[1..]);
      CollectConcat(st, [t[0]], t[1..]);
      assert [t[0]] + t[1..] == t;
    }
  }

  lemma TokenIsInert(t: seq<byte>)
    requires forall i :: 0 <= i < |t| ==> TokenByte(t[i])
    ensures Inert(t)
  {
    forall st: Scan | Ready(st) ensures FeedAll(st, t) == Collect(st, t) { FeedToken(st, t); }
  }

  lemma InertConcat(a: seq<byte>, b: seq<byte>)
    requires Inert(a) && Inert(b)
    ensures Inert(a + b)
  {
    forall st: Scan | Ready(st) ensures FeedAll(st, a + b) == Collect(st, a + b) {
      FeedConcat(st, a, b);
      assert Ready(Collect(st, a));
      CollectConcat(st, a, b);
    }
  }

  lemma NamedIsInert(name: seq<byte>, value: seq<byte>)
    requires Inert(value)
    ensures Inert(Named(name, value))
  {
    QuotedIsInert(name);
    TokenIsInert([0x3a]);
    InertConcat(Quoted(name), [0x3a]);
    InertConcat(Quoted(name) + [0x3a], value);
  }

  /** Inside brackets commas are collected too. */
  lemma {:induction false} FeedCommas(st: Scan, pieces: seq<seq<byte>>)
    requires Ready(st) && st.depth > 0 && forall i :: 0 <= i < |pieces| ==> Inert(pieces[i])
    ensures FeedAll(st, Commas(pieces)) == Collect(st, Commas(pieces))
    decreases |pieces|
  {
    if pieces == [] {
      assert st.cur + [] == st.cur;
    } else if |pieces| > 1 {
      var before, last := pieces[..|pieces| - 1], pieces[|pieces| - 1];
      FeedCommas(st, before);
      FeedLast(st, Commas(before), COMMA);
      CollectConcat(st, Commas(before), [COMMA]);
      FeedConcat(st, Commas(before) + [COMMA], last);
      CollectConcat(st, Commas(before) + [COMMA], last);
      assert Ready(Collect(st, Commas(before) + [COMMA]));
    }
  }

  predicate Brackets(open: byte, close: byte) { (open == 0x5b && close == 0x5d) || (open == 0x7b && close == 0x7d) }

  lemma FeedInside(st: Scan, open: byte, pieces: seq<seq<byte>>)
    requires Ready(st) && (open == 0x5b || open == 0x7b) && forall i :: 0 <= i < |pieces| ==> Inert(pieces[i])
    ensures FeedAll(st, [open] + Commas(pieces)) == Collect(st, [open] + Commas(pieces)).(depth := st.depth + 1)
  {
    var inside := Collect(st, [open]).(depth := st.depth + 1);
    FeedConcat(st, [open], Commas(pieces));
    FeedOne(st, open);
    FeedCommas(inside, pieces);
    CollectConcat(st, [open], Commas(pieces));
  }

  lemma FeedBracketed(st: Scan, open: byte, pieces: seq<seq<byte>>, close: byte)
    requires Ready(st) && Brackets(open, close) && forall i :: 0 <= i < |pieces| ==> Inert(pieces[i])
    ensures FeedAll(st, [open] + Commas(pieces) + [close]) == Collect(st, [open] + Commas(pieces) + [close])
  {
    var front := [open] + Commas(pieces);
    FeedInside(st, open, pieces);
    FeedLast(st, front, close);
    CollectConcat(st, front, [close]);
  }

  lemma BracketedIsInert(open: byte, pieces: seq<seq<byte>>, close: byte)
    requires Brackets(open, close) && forall i :: 0 <= i < |pieces| ==> Inert(pieces[i])
    ensures Inert([open] + Commas(pieces) + [close])
  {
    var p := [open] + Commas(pieces) + [close];
    forall st: Scan | Ready(st) ensures FeedAll(st, p) == Collect(st, p) { FeedBracketed(st, open, pieces, close); }
  }

  /** However deeply it nests, a value is never cut. */
  lemma {:induction false} ValueIsInert(v: Value)
    requires WellFormed(v)
    ensures Inert(Render(v))
    decreases v
  {
    match v
    case Text(s) => QuotedIsInert(s);
    case Token(t) => TokenIsInert(t);
    case Arr(items) =>
      var parts := seq(|items|, i requires 0 <= i < |items| => Render(items[i]));
      forall i | 0 <= i < |items| ensures Inert(parts[i]) { ValueIsInert(items[i]); }
      BracketedIsInert(0x5b, parts, 0x5d);
    case Obj(fields) =>
      var parts := seq(|fields|, i requires 0 <= i < |fields| => Named(fields[i].name, Render(fields[i].value)));
      forall i | 0 <= i < |fields| ensures Inert(parts[i]) {
        ValueIsInert(fields[i].value);
        NamedIsInert(fields[i].name, Render(fields[i].value));
      }
      BracketedIsInert(0x7b, parts, 0x7d);
  }

  predicate Solid(x: seq<byte>) { x != [] && !IsSpace(x[0]) && !IsSpace(x[|x| - 1]) }

  lemma ValueIsSolid(v: Value)
    requires WellFormed(v)
    ensures Solid(Render(v))
  {
    if v.Token? { assert TokenByte(v.token[0]) && TokenByte(v.token[|v.token| - 1]); }
  }

  lemma {:induction false} TrimFrontPadding(lead: seq<byte>, x: seq<byte>)
    requires AllSpace(lead) && x != [] && !IsSpace(x[0])
    ensures TrimFront(lead + x) == x
  {
    if lead == [] {
      assert lead + x == x;
    } else {
      assert (lead + x)[1..] == lead[1..] + x;
      TrimFrontPadding(lead[1..], x);
    }
  }

  lemma {:induction false} TrimBackPadding(x: seq<byte>, trail: seq<byte>)
    requires AllSpace(trail) && x != [] && !IsSpace(x[|x| - 1])
    ensures TrimBack(x + trail) == x
    decreases |trail|
  {
    var n := |trail|;
    if n == 0 {
      assert x + trail == x;
    } else {
      assert (x + trail)[..|x + trail| - 1] == x + trail[..n - 1];
      TrimBackPadding(x, trail[..n - 1]);
    }
  }

  lemma TrimPadding(lead: seq<byte>, x: seq<byte>, trail: seq<byte>)
    requires AllSpace(lead) && AllSpace(trail) && Solid(x)
    ensures Trim(lead + x + trail) == x
  {
    assert lead + x + trail == lead + (x + trail);
    TrimFrontPadding(lead, x + trail);
    TrimBackPadding(x, trail);
  }

  /** A value between white space. */
  datatype Item = Item(lead: seq<byte>, value: Value, trail: seq<byte>)

  predicate ItemOk(it: Item) { AllSpace(it.lead) && AllSpace(it.trail) && WellFormed(it.value) }

  function ItemText(it: Item): seq<byte> { it.lead + Render(it.value) + it.trail }

  function Texts(items: seq<Item>): (r: seq<seq<byte>>)
    ensures |r| == |items|
  {
    seq(|items|, i requires 0 <= i < |items| => ItemText(items[i]))
  }

  function Values(items: seq<Item>): (r: seq<seq<byte>>)
    ensures |r| == |items|
  {
    seq(|items|, i requires 0 <= i < |items| => Render(items[i].value))
  }

  lemma {:induction false} FeedSpace(st: Scan, p: seq<byte>)
    requires Ready(st) && AllSpace(p)
    ensures FeedAll(st, p) == Collect(st, p)
    decreases |p|
  {
    if p == [] {
      assert st.cur + p == st.cur;
    } else {
      FeedSpace(Feed(st, p[0]), p[1..]);
      CollectConcat(st, [p[0]], p[1..]);
      assert [p[0]] + p[1..] == p;
    }
  }

  lemma SpaceIsInert(p: seq<byte>)
    requires AllSpace(p)
    ensures Inert(p)
  {
    forall st: Scan | Ready(st) ensures FeedAll(st, p) == Collect(st, p) { FeedSpace(st, p); }
  }

  lemma ItemIsKept(it: Item)
    requires ItemOk(it)
    ensures Closed(ItemText(it)) && Uncut(ItemText(it)) && ItemText(it) != []
    ensures Trim(ItemText(it)) == Render(it.value)
  {
    var x := Render(it.value);
    ValueIsInert(it.value);
    ValueIsSolid(it.value);
    SpaceIsInert(it.lead);
    SpaceIsInert(it.trail);
    InertConcat(it.lead, x);
    InertConcat(it.lead + x, it.trail);
    InertIsClosed(ItemText(it));
    TrimPadding(it.lead, x, it.trail);
  }

  lemma CommasNonempty(pieces: seq<seq<byte>>)
    requires pieces != [] && pieces[0] != []
    ensures Commas(pieces) != []
  {
  }

  /** Splitting a list of JSON values of any kind and depth, with any white space around them, gives back
      exactly those values. */
  lemma SplitValues(items: seq<Item>)
    requires forall i :: 0 <= i < |items| ==> ItemOk(items[i])
    ensures Split(Commas(Texts(items))) == Values(items)
  {
    if items != [] {
      var pieces := Texts(items);
      forall i | 0 <= i < |items|
        ensures Closed(pieces[i]) && Uncut(pieces[i]) && pieces[i] != [] && TrimAll(pieces)[i] == Values(items)[i]
      {
        ItemIsKept(items[i]);
      }
      CommasNonempty(pieces);
      SplitCommas(pieces);
      assert TrimAll(pieces) == Values(items);
    }
  }

  /** In particular quoted strings come back, whatever bytes they contain. */
  lemma SplitJoined(ss: seq<seq<byte>>)
    ensures Split(Join(ss)) == QuotedAll(ss)
  {
    var items := seq(|ss|, i requires 0 <= i < |ss| => Item([], Text(ss[i]), []));
    SplitValues(items);
    forall i | 0 <= i < |ss| ensures Texts(items)[i] == QuotedAll(ss)[i] == Values(items)[i] {
      assert [] + Quoted(ss[i]) + [] == Quoted(ss[i]);
    }
    assert Texts(items) == QuotedAll(ss) && Values(items) == QuotedAll(ss);
  }

  // ---- Round trips ----

  function UnquoteAll(pieces: seq<seq<byte>>): (r: seq<seq<byte>>)
    ensures |r| == |pieces|
  {
    seq(|pieces|, i requires 0 <= i < |pieces| => Unquote(pieces[i]))
  }

  function DecodedAll(ss: seq<seq<byte>>): (r: seq<seq<byte>>)
    ensures |r| == |ss|
  {
    seq(|ss|, i requires 0 <= i < |ss| => Decoded(ss[i]))
  }

  lemma UnquoteQuoted(s: seq<byte>)
    ensures Unquote(Quoted(s)) == Decoded(s)
  {
    TrimQuoted(s);
    assert Quoted(s)[1..|Quoted(s)| - 1] == Escape(s);
    UnescapeEscape(s);
  }

  lemma ListUnchanged(ss: seq<seq<byte>>)
    ensures DecodedAll(ss) == ss <==> forall i :: 0 <= i < |ss| ==> Clean(ss[i])
  {
    forall i | 0 <= i < |ss| ensures DecodedAll(ss)[i] == ss[i] <==> Clean(ss[i]) { DecodedUnchanged(ss[i]); }
    if DecodedAll(ss) != ss {
      var i :| 0 <= i < |ss| && DecodedAll(ss)[i] != ss[i];
      assert !Clean(ss[i]);
    }
  }

  /** Escape, quote, join, split, unquote: every list comes back with each byte decoded, and it comes back
      unchanged exactly when no string holds a control character without a two-byte escape. */
  lemma ListRoundTrip(ss: seq<seq<byte>>)
    ensures UnquoteAll(Split(Join(ss))) == DecodedAll(ss)
    ensures UnquoteAll(Split(Join(ss))) == ss <==> forall i :: 0 <= i < |ss| ==> Clean(ss[i])
  {
    SplitJoined(ss);
    forall i | 0 <= i < |ss| ensures UnquoteAll(QuotedAll(ss))[i] == DecodedAll(ss)[i] { UnquoteQuoted(ss[i]); }
    assert UnquoteAll(QuotedAll(ss)) == DecodedAll(ss);
    ListUnchanged(ss);
  }
}
