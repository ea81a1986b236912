/**
 The byte stream a device has accepted, cut into newline-terminated commands.
 */
module CommandStream {
  import opened Basics
  import opened CircularBuffer

  const NEWLINE: byte := 10

  type Bytes = seq<byte>

  /** The bytes after the last newline. */
  function Tail(stream: Bytes): (t: Bytes)
    ensures NEWLINE !in t
  {
    if stream == [] || stream[|stream| - 1] == NEWLINE then
      []
    else
      Tail(stream[..|stream| - 1]) + [stream[|stream| - 1]]
  }

  /** A command: bytes up to and including their only newline. */
  predicate IsCommand(line: Bytes) {
    line != [] && line[|line| - 1] == NEWLINE && NEWLINE !in line[..|line| - 1]
  }

  /** The complete commands of a stream. */
  function Lines(stream: Bytes): (lines: seq<Bytes>)
    ensures forall line :: line in lines ==> IsCommand(line)
  {
    if stream == [] then
      []
    else
      var n := |stream| - 1;
      var before := Lines(stream[..n]);
      if stream[n] == NEWLINE then
        var line := Tail(stream[..n]) + [NEWLINE];
        assert line[..|line| - 1] == Tail(stream[..n]);
        before + [line]
      else
        before
  }

  function Joined(lines: seq<Bytes>): Bytes {
    if lines == [] then [] else lines[0] + Joined(lines[1..])
  }

  lemma {:induction false} JoinedAppend(a: seq<Bytes>, b: seq<Bytes>)
    ensures Joined(a + b) == Joined(a) + Joined(b)
  {
    if a == [] {
      assert a + b == b;
    } else {
      assert (a + b)[1..] == a[1..] + b;
      JoinedAppend(a[1..], b);
    }
  }

  lemma JoinedOne(line: Bytes)
    ensures Joined([line]) == line
  {
  }

  /** Nothing of the stream is lost or repeated by cutting it. */
  lemma {:induction false} CutsCompletely(stream: Bytes)
    ensures Joined(Lines(stream)) + Tail(stream) == stream
  {
    if stream != [] {
      var n := |stream| - 1;
      var before := stream[..n];
      CutsCompletely(before);
      assert stream == before + [stream[n]];
      if stream[n] == NEWLINE {
        var line := Tail(before) + [NEWLINE];
        JoinedAppend(Lines(before), [line]);
        JoinedOne(line);
        assert Joined(Lines(before)) + line == (Joined(Lines(before)) + Tail(before)) + [NEWLINE];
        assert Tail(stream) == [];
      } else {
        assert Joined(Lines(stream)) + Tail(stream) == (Joined(Lines(before)) + Tail(before)) + [stream[n]];
      }
    }
  }

  /** The commands that have given way, the last ten and the unterminated rest make up the stream. */
  lemma StreamIsKeptOrEvicted(stream: Bytes)
    ensures var lines := Lines(stream);
            stream == Joined(lines[..|lines| - |LastTen(lines)|]) + Joined(LastTen(lines)) + Tail(stream)
  {
    var lines := Lines(stream);
    var evicted := lines[..|lines| - |LastTen(lines)|];
    CutsCompletely(stream);
    JoinedAppend(evicted, LastTen(lines));
    assert lines == evicted + LastTen(lines);
  }

  /** A stream can be cut into commands and a newline-free rest in one way only. */
  lemma {:induction false} CutsUniquely(lines: seq<Bytes>, tail: Bytes)
    requires forall line :: line in lines ==> IsCommand(line)
    requires NEWLINE !in tail
    ensures Lines(Joined(lines) + tail) == lines
    ensures Tail(Joined(lines) + tail) == tail
    decreases |lines|
  {
    if lines == [] {
      assert Joined(lines) + tail == [] + tail;
      AppendUnterminated([], tail);
      assert [] + tail == tail;
    } else {
      var n := |lines| - 1;
      var before, line := lines[..n], lines[n];
      CutsUniquely(before, []);
      assert Joined(before) + [] == Joined(before);
      assert lines == before + [line];
      JoinedAppend(before, [line]);
      JoinedOne(line);
      AppendCommand(Joined(before), line);
      assert [] + line == line;
      AppendUnterminated(Joined(lines), tail);
    }
  }

  /** Bytes without a newline only lengthen the rest. */
  lemma {:induction false} AppendUnterminated(stream: Bytes, data: Bytes)
    requires NEWLINE !in data
    ensures Lines(stream + data) == Lines(stream)
    ensures Tail(stream + data) == Tail(stream) + data
  {
    if data == [] {
      assert stream + data == stream;
    } else {
      var n := |data| - 1;
      AppendUnterminated(stream, data[..n]);
      var whole := stream + data;
      assert whole[..|whole| - 1] == stream + data[..n] && whole[|whole| - 1] == data[n];
      assert data[n] in data;
      assert (Tail(stream) + data[..n]) + [data[n]] == Tail(stream) + data;
    }
  }

  lemma TerminatedTail(stream: Bytes)
    requires stream != [] && stream[|stream| - 1] == NEWLINE
    ensures Tail(stream) == []
  {
  }

  /** Bytes that end with their only newline complete one command. */
  lemma AppendCommand(stream: Bytes, data: Bytes)
    requires IsCommand(data)
    ensures Lines(stream + data) == Lines(stream) + [Tail(stream) + data]
    ensures Tail(stream + data) == []
  {
    hide Tail;
    var n := |data| - 1;
    var whole := stream + data;
    AppendUnterminated(stream, data[..n]);
    assert whole[|whole| - 1] == NEWLINE && whole[..|whole| - 1] == stream + data[..n];
    assert (Tail(stream) + data[..n]) + [NEWLINE] == Tail(stream) + data;
    TerminatedTail(whole);
  }

  /** How many bytes of a write the device takes: up to and including the first newline. */
  function Accepted(data: Bytes): (n: nat)
    ensures n <= |data| && (data != [] ==> n > 0)
    ensures if NEWLINE in data then n > 0 && IsCommand(data[..n]) else n == |data|
  {
    if data == [] then
      0
    else if data[0] == NEWLINE then
      assert data[..1] == [NEWLINE];
      1
    else
      var rest := Accepted(data[1..]);
      assert data == [data[0]] + data[1..];
      assert data[..1 + rest] == [data[0]] + data[1..][..rest];
      assert NEWLINE in data[1..] ==> data[..1 + rest][..rest] == [data[0]] + data[1..][..rest][..rest - 1];
      1 + rest
  }

  // ---------- Positions in joined commands ----------

  /** A stretch inside one command, found in all commands put end to end. */
  lemma JoinedSlice(lines: seq<Bytes>, pos: nat, rtn: nat, n: nat)
    requires pos < |lines| && rtn + n <= |lines[pos]|
    ensures var start := |Joined(lines[..pos])| + rtn;
            && start + n <= |Joined(lines)|
            && Joined(lines)[start..start + n] == lines[pos][rtn..rtn + n]
  {
    hide Joined;
    var a, line, b := lines[..pos], lines[pos], lines[pos + 1..];
    assert lines == (a + [line]) + b;
    JoinedAppend(a + [line], b);
    JoinedAppend(a, [line]);
    JoinedOne(line);
    assert Joined(lines) == Joined(a) + line + Joined(b);
  }

  /** The bytes from an offset to the end of the command it lies in; none past the last command. */
  function LeftInCommand(lines: seq<Bytes>, offset: nat): (left: nat)
    ensures left > 0 <==> offset < |Joined(lines)|
    ensures offset + left <= |Joined(lines)| || left == 0
  {
    if lines == [] then 0
    else if offset < |lines[0]| then |lines[0]| - offset
    else LeftInCommand(lines[1..], offset - |lines[0]|)
  }

  lemma {:induction false} LeftAt(lines: seq<Bytes>, pos: nat, rtn: nat)
    requires pos < |lines| && rtn < |lines[pos]|
    ensures LeftInCommand(lines, |Joined(lines[..pos])| + rtn) == |lines[pos]| - rtn
  {
    if pos == 0 {
      assert lines[..0] == [];
    } else {
      assert lines[1..][..pos - 1] == lines[..pos][1..];
      LeftAt(lines[1..], pos - 1, rtn);
    }
  }
}
