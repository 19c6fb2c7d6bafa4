/** read_loop of stratum_client.cpp: cutting a byte stream, received in arbitrary chunks, into lines. */
module LineFraming {
  import opened Words

  const NEWLINE: byte := 10
  const RETURN: byte := 13

  predicate NoNewline(s: seq<byte>) { forall i :: 0 <= i < |s| ==> s[i] != NEWLINE }

  /** Position of the first newline, or the length when there is none. */
  function NewlineAt(s: seq<byte>): (p: nat)
    ensures p <= |s|
  {
    if s == [] || s[0] == NEWLINE then 0 else 1 + NewlineAt(s[1..])
  }

  /** The newline-terminated pieces of a stream, without their newlines. */
  function Pieces(s: seq<byte>): seq<seq<byte>>
    decreases |s|
  {
    var p := NewlineAt(s);
    if p == |s| then [] else [s[..p]] + Pieces(s[p + 1..])
  }

  /** What follows the last newline. */
  function Leftover(s: seq<byte>): seq<byte>
    decreases |s|
  {
    var p := NewlineAt(s);
    if p == |s| then s else Leftover(s[p + 1..])
  }

  function StripReturn(line: seq<byte>): seq<byte> {
    if line != [] && line[|line| - 1] == RETURN then line[..|line| - 1] else line
  }

  function Lines(pieces: seq<seq<byte>>): (r: seq<seq<byte>>)
    ensures |r| == |pieces|
  {
    seq(|pieces|, i requires 0 <= i < |pieces| => StripReturn(pieces[i]))
  }

  // ---- The pieces are the only way to cut the stream ----

  function Terminated(pieces: seq<seq<byte>>): seq<byte> {
    if pieces == [] then [] else pieces[0] + [NEWLINE] + Terminated(pieces[1..])
  }

  /** The first newline splits a stream into a newline-free head and the rest. */
  lemma {:induction false} HeadAndRest(s: seq<byte>)
    ensures NoNewline(s[..NewlineAt(s)])
    ensures NewlineAt(s) < |s| ==> s == s[..NewlineAt(s)] + [NEWLINE] + s[NewlineAt(s) + 1..]
  {
    if s != [] && s[0] != NEWLINE {
      HeadAndRest(s[1..]);
      var p := NewlineAt(s[1..]);
      assert s[..p + 1] == [s[0]] + s[1..][..p];
      if p < |s[1..]| {
        assert s[1..][p + 1..] == s[p + 2..];
        assert s == [s[0]] + s[1..];
      }
    }
  }

  lemma {:induction false} FirstNewline(a: seq<byte>, b: seq<byte>)
    requires NoNewline(a)
    ensures NewlineAt(a + [NEWLINE] + b) == |a|
  {
    if a != [] {
      FirstNewline(a[1..], b);
      assert (a + [NEWLINE] + b)[1..] == a[1..] + [NEWLINE] + b;
    }
  }

  lemma {:induction false} NoNewlineAtAll(a: seq<byte>)
    requires NoNewline(a)
    ensures NewlineAt(a) == |a|
  {
    if a != [] { NoNewlineAtAll(a[1..]); }
  }

  lemma CutOff(a: seq<byte>, b: seq<byte>)
    requires NoNewline(a)
    ensures Pieces(a + [NEWLINE] + b) == [a] + Pieces(b)
    ensures Leftover(a + [NEWLINE] + b) == Leftover(b)
  {
    FirstNewline(a, b);
    var s := a + [NEWLINE] + b;
    assert s[..|a|] == a;
    assert s[|a| + 1..] == b;
  }

  predicate AllWithoutNewline(pieces: seq<seq<byte>>) {
    pieces != [] ==> NoNewline(pieces[0]) && AllWithoutNewline(pieces[1..])
  }

  /** Pieces and leftover put together again are the stream, and none of them holds a newline. */
  lemma {:induction false} PiecesRejoin(s: seq<byte>)
    ensures Terminated(Pieces(s)) + Leftover(s) == s
    ensures NoNewline(Leftover(s)) && AllWithoutNewline(Pieces(s))
    decreases |s|
  {
    var p := NewlineAt(s);
    HeadAndRest(s);
    if p == |s| {
      assert s[..p] == s;
    } else {
      var head, rest := s[..p], s[p + 1..];
      PiecesRejoin(rest);
      TerminatedCons(head, Pieces(rest));
      Assoc(head + [NEWLINE], Terminated(Pieces(rest)), Leftover(rest));
    }
  }

  lemma TerminatedCons(head: seq<byte>, pieces: seq<seq<byte>>)
    ensures Terminated([head] + pieces) == head + [NEWLINE] + Terminated(pieces)
    ensures AllWithoutNewline([head] + pieces) <==> NoNewline(head) && AllWithoutNewline(pieces)
  {
    assert ([head] + pieces)[1..] == pieces;
  }

  lemma Assoc<T>(a: seq<T>, b: seq<T>, c: seq<T>)
    ensures (a + b) + c == a + (b + c)
  {
  }

  /** Any cut into newline-free pieces and a newline-free leftover is this one. */
  lemma {:induction false} PiecesUnique(pieces: seq<seq<byte>>, rest: seq<byte>)
    requires NoNewline(rest) && AllWithoutNewline(pieces)
    ensures Pieces(Terminated(pieces) + rest) == pieces && Leftover(Terminated(pieces) + rest) == rest
    decreases |pieces|
  {
    if pieces == [] {
      assert Terminated(pieces) + rest == rest;
      NoNewlineAtAll(rest);
    } else {
      var tail := Terminated(pieces[1..]) + rest;
      PiecesUnique(pieces[1..], rest);
      CutOff(pieces[0], tail);
      Assoc(pieces[0] + [NEWLINE], Terminated(pieces[1..]), rest);
      assert pieces == [pieces[0]] + pieces[1..];
    }
  }

  /** More data only continues the leftover: pieces already cut off stay as they are. */
  lemma {:induction false} MoreData(s: seq<byte>, more: seq<byte>)
    ensures Pieces(s + more) == Pieces(s) + Pieces(Leftover(s) + more)
    ensures Leftover(s + more) == Leftover(Leftover(s) + more)
    decreases |s|
  {
    var p := NewlineAt(s);
    HeadAndRest(s);
    if p == |s| {
      assert Pieces(s) == [];
    } else {
      var head, rest := s[..p], s[p + 1..];
      MoreData(rest, more);
      CutOff(head, rest + more);
      Assoc(head + [NEWLINE], rest, more);
      Assoc([head], Pieces(rest), Pieces(Leftover(rest) + more));
    }
  }

  // ---- Line endings ----

  /** A line as it is sent: ended by a newline alone or by a carriage return and a newline. */
  datatype Ended = Ended(line: seq<byte>, withReturn: bool) {
    function Piece(): seq<byte> { if withReturn then line + [RETURN] else line }

    /** A line holds no newline; one ended by a newline alone does not end in a carriage return. */
    predicate Ok() {
      NoNewline(line) && (withReturn || line == [] || line[|line| - 1] != RETURN)
    }
  }

  function AllPieces(lines: seq<Ended>): (r: seq<seq<byte>>)
    ensures |r| == |lines|
  {
    seq(|lines|, i requires 0 <= i < |lines| => lines[i].Piece())
  }

  function AllLines(lines: seq<Ended>): (r: seq<seq<byte>>)
    ensures |r| == |lines|
  {
    seq(|lines|, i requires 0 <= i < |lines| => lines[i].line)
  }

  lemma {:induction false} EndedPieces(lines: seq<Ended>)
    requires forall i :: 0 <= i < |lines| ==> lines[i].Ok()
    ensures AllWithoutNewline(AllPieces(lines))
    decreases |lines|
  {
    if lines != [] {
      EndedPieces(lines[1..]);
      assert AllPieces(lines)[1..] == AllPieces(lines[1..]);
      assert lines[0].Ok();
    }
  }

  /** Whichever of the two endings each line has, the lines received are the lines sent: exactly one carriage
      return before a newline belongs to the ending. */
  lemma EndingsDoNotMatter(lines: seq<Ended>, rest: seq<byte>)
    requires (forall i :: 0 <= i < |lines| ==> lines[i].Ok()) && NoNewline(rest)
    ensures Lines(Pieces(Terminated(AllPieces(lines)) + rest)) == AllLines(lines)
    ensures Leftover(Terminated(AllPieces(lines)) + rest) == rest
  {
    EndedPieces(lines);
    PiecesUnique(AllPieces(lines), rest);
    forall i | 0 <= i < |lines| ensures Lines(AllPieces(lines))[i] == AllLines(lines)[i] {
      assert lines[i].Ok();
    }
  }

  /** Every stream is made of such lines, and they are the ones received. */
  lemma EveryStreamIsLines(s: seq<byte>) returns (lines: seq<Ended>)
    ensures forall i :: 0 <= i < |lines| ==> lines[i].Ok()
    ensures s == Terminated(AllPieces(lines)) + Leftover(s) && Lines(Pieces(s)) == AllLines(lines)
  {
    var pieces := Pieces(s);
    PiecesRejoin(s);
    lines := seq(|pieces|, i requires 0 <= i < |pieces| => Ended(StripReturn(pieces[i]), pieces[i] != StripReturn(pieces[i])));
    forall i | 0 <= i < |lines| ensures lines[i].Ok() && AllPieces(lines)[i] == pieces[i] {
      PieceIsFree(pieces, i);
      EndedOf(pieces[i]);
    }
    assert AllPieces(lines) == pieces;
  }

  lemma EndedOf(piece: seq<byte>)
    requires NoNewline(piece)
    ensures var e := Ended(StripReturn(piece), piece != StripReturn(piece)); e.Piece() == piece && NoNewline(e.line)
    ensures piece == StripReturn(piece) ==> piece == [] || piece[|piece| - 1] != RETURN
  {
  }

  lemma {:induction false} PieceIsFree(pieces: seq<seq<byte>>, i: nat)
    requires AllWithoutNewline(pieces) && i < |pieces|
    ensures NoNewline(pieces[i])
    decreases i
  {
    if i > 0 { PieceIsFree(pieces[1..], i - 1); }
  }

  // ---- The loop ----

  /** What one recv call reports. */
  datatype Recv = Data(bytes: seq<byte>) | Retry | Closed

  /** The bytes received before the connection ended. */
  function Received(calls: seq<Recv>): seq<byte> {
    if calls == [] || Ends(calls[0]) then []
    else if calls[0].Data? then calls[0].bytes + Received(calls[1..])
    else Received(calls[1..])
  }

  /** A close, an error or an empty read. */
  predicate Ends(call: Recv) { call.Closed? || (call.Data? && |call.bytes| == 0) }

  function Bytes(call: Recv): seq<byte> { if call.Data? then call.bytes else [] }

  function AllBytes(calls: seq<Recv>): seq<byte> {
    if calls == [] then [] else AllBytes(calls[..|calls| - 1]) + Bytes(calls[|calls| - 1])
  }

  lemma {:induction false} AllBytesCons(call: Recv, calls: seq<Recv>)
    ensures AllBytes([call] + calls) == Bytes(call) + AllBytes(calls)
    decreases |calls|
  {
    var all := [call] + calls;
    if calls == [] {
      assert all[..0] == [];
    } else {
      AllBytesCons(call, calls[..|calls| - 1]);
      assert all[..|all| - 1] == [call] + calls[..|calls| - 1];
      Assoc(Bytes(call), AllBytes(calls[..|calls| - 1]), Bytes(calls[|calls| - 1]));
    }
  }

  predicate Stops(call: Recv) { call.Closed? || (call.Data? && call.bytes == []) }

  lemma ReceivedFirst(calls: seq<Recv>)
    requires calls != []
    ensures Received(calls) == if Stops(calls[0]) then [] else Bytes(calls[0]) + Received(calls[1..])
  {
    assert [] + Received(calls[1..]) == Received(calls[1..]);
  }

  /** Received is what the calls before the first close, error or empty read delivered: a retry delivers
      nothing and ends nothing. */
  lemma {:induction false} ReceivedUntilEnd(calls: seq<Recv>, k: nat)
    requires k <= |calls| && (k == |calls| || Stops(calls[k])) && forall i :: 0 <= i < k ==> !Stops(calls[i])
    ensures Received(calls) == AllBytes(calls[..k])
    decreases k
  {
    if calls != [] { ReceivedFirst(calls); }
    if k > 0 {
      var rest := calls[1..];
      ReceivedUntilEnd(rest, k - 1);
      AllBytesCons(calls[0], rest[..k - 1]);
      assert calls[..k] == [calls[0]] + rest[..k - 1];
    }
  }

  /** buf.find('\n'). */
  method FindNewline(buf: seq<byte>) returns (p: nat)
    ensures p == NewlineAt(buf)
  {
    p := 0;
    while p < |buf| && buf[p] != NEWLINE
      invariant p <= |buf| && p + NewlineAt(buf[p..]) == NewlineAt(buf)
    {
      assert buf[p..][1..] == buf[p + 1..];
      p := p + 1;
    }
  }

  /** The lines handed on and the buffer after the bytes seen so far. */
  predicate Delivered(lines: seq<seq<byte>>, buf: seq<byte>, seen: seq<byte>) {
    lines == Lines(Pieces(seen)) && buf == Leftover(seen)
  }

  class LineReader {
    var buf: seq<byte>

    constructor ()
      ensures buf == []
    {
      buf := [];
    }

    /** Cut every complete line off the buffer. */
    method TakeLines() returns (lines: seq<seq<byte>>)
      modifies this
      ensures lines == Lines(Pieces(old(buf))) && buf == Leftover(old(buf))
    {
      lines := [];
      var p := FindNewline(buf);
      while p < |buf|
        invariant p == NewlineAt(buf)
        invariant lines + Lines(Pieces(buf)) == Lines(Pieces(old(buf))) && Leftover(buf) == Leftover(old(buf))
        decreases |buf|
      {
        var line := buf[..p];
        assert Pieces(buf) == [line] + Pieces(buf[p + 1..]);
        LinesCons(line, Pieces(buf[p + 1..]));
        if line != [] && line[|line| - 1] == RETURN {
          line := line[..|line| - 1];
        }
        Assoc(lines, [line], Lines(Pieces(buf[p + 1..])));
        buf := buf[p + 1..];
        lines := lines + [line];
        p := FindNewline(buf);
      }
      assert Lines(Pieces(buf)) == [];
    }

    /** One successful recv: the lines it completes are those the longer stream adds. */
    method Append(bytes: seq<byte>, ghost lines: seq<seq<byte>>, ghost seen: seq<byte>)
      returns (more: seq<seq<byte>>)
      requires Delivered(lines, buf, seen)
      modifies this
      ensures Delivered(lines + more, buf, seen + bytes)
    {
      MoreData(seen, bytes);
      LinesConcat(Pieces(seen), Pieces(buf + bytes));
      buf := buf + bytes;
      more := TakeLines();
    }

    /** The lines delivered depend only on the bytes received, not on how recv cut them up. */
    method ReadLoop(calls: seq<Recv>) returns (lines: seq<seq<byte>>)
      requires buf == []
      modifies this
      ensures Delivered(lines, buf, Received(calls))
    {
      lines := [];
      ghost var seen: seq<byte> := [];
      for i := 0 to |calls|
        invariant seen + Received(calls[i..]) == Received(calls)
        invariant Delivered(lines, buf, seen)
      {
        ReceivedStep(seen, calls, i);
        if Ends(calls[i]) {
          return;
        }
        if calls[i].Data? {
          var more := Append(calls[i].bytes, lines, seen);
          seen := seen + calls[i].bytes;
          lines := lines + more;
        }
      }
      assert seen == Received(calls);
    }
  }

  /** One recv result moves its bytes from what is still to come to what has been seen. */
  lemma ReceivedStep(seen: seq<byte>, calls: seq<Recv>, i: nat)
    requires i < |calls| && seen + Received(calls[i..]) == Received(calls)
    ensures Ends(calls[i]) ==> seen == Received(calls)
    ensures calls[i].Retry? ==> seen + Received(calls[i + 1..]) == Received(calls)
    ensures !Ends(calls[i]) && calls[i].Data? ==>
      (seen + calls[i].bytes) + Received(calls[i + 1..]) == Received(calls)
  {
    var rest := calls[i..];
    assert rest[0] == calls[i] && rest[1..] == calls[i + 1..];
    if Ends(calls[i]) {
      assert Received(rest) == [];
    } else if calls[i].Data? {
      Assoc(seen, calls[i].bytes, Received(rest[1..]));
    }
  }

  lemma LinesCons(line: seq<byte>, pieces: seq<seq<byte>>)
    ensures Lines([line] + pieces) == [StripReturn(line)] + Lines(pieces)
  {
  }

  lemma LinesConcat(a: seq<seq<byte>>, b: seq<seq<byte>>)
    ensures Lines(a + b) == Lines(a) + Lines(b)
  {
  }

  /** Every sequence of recv results, from a fresh reader. */
  method ReadAll(calls: seq<Recv>) returns (lines: seq<seq<byte>>, rest: seq<byte>)
    ensures Delivered(lines, rest, Received(calls)) && NoNewline(rest)
  {
    var reader := new LineReader();
    lines := reader.ReadLoop(calls);
    rest := reader.buf;
    PiecesRejoin(Received(calls));
  }
}
