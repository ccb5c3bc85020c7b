// client_connection::onReadyRead: a byte stream, arriving in arbitrary pieces, cut
// into lines. The result does not depend on the pieces.
module LineFramer {
  import opened ByteStrings

  const MAX_BUFFER_SIZE: nat := 1024
  const CHUNK_SIZE: nat := 1024

  // Lines delivered, and the unfinished line kept in m_buffer.
  datatype Cut = Cut(lines: seq<string>, rest: string)

  function Chop(raw: string): string {
    if raw != "" && raw[|raw| - 1] == '\r' then raw[..|raw| - 1] else raw
  }

  // A whole stream at once.
  function CutLines(s: string): Cut
    decreases |s|
  {
    var n := IndexOf(s, '\n');
    if n < 0 then Cut([], s)
    else
      var c := CutLines(s[n + 1..]);
      Cut([Chop(s[..n])] + c.lines, c.rest)
  }

  predicate NoLF(s: string) {
    '\n' !in s
  }

  lemma {:induction false} RestHasNoLF(s: string)
    ensures NoLF(CutLines(s).rest)
    decreases |s|
  {
    var n := IndexOf(s, '\n');
    if n >= 0 {
      RestHasNoLF(s[n + 1..]);
    }
  }

  lemma CutAt(front: string, back: string)
    requires NoLF(front)
    ensures CutLines(front + "\n" + back) == Cut([Chop(front)] + CutLines(back).lines, CutLines(back).rest)
  {
    hide IndexOf, Chop;
    var s, n := front + "\n" + back, |front|;
    assert s[..n] == front && s[n] == '\n' && s[n + 1..] == back;
    IndexOfUnique(s, '\n', n);
  }

  // Cutting can stop anywhere in the stream and go on from the kept rest.
  lemma {:induction false} CutInTwo(s: string, t: string)
    ensures var c := CutLines(s);
            var d := CutLines(c.rest + t);
            CutLines(s + t) == Cut(c.lines + d.lines, d.rest)
    decreases |s|, 1
  {
    hide IndexOf, Chop;
    var n := IndexOf(s, '\n');
    if n >= 0 {
      var front, back := s[..n], s[n + 1..];
      CutStep(front, back, t);
      assert s == front + "\n" + back;
    }
  }

  lemma {:induction false} CutStep(front: string, back: string, t: string)
    requires NoLF(front)
    ensures var c := CutLines(front + "\n" + back);
            var d := CutLines(c.rest + t);
            CutLines(front + "\n" + back + t) == Cut(c.lines + d.lines, d.rest)
    decreases |front| + |back| + 1, 0
  {
    hide CutLines, Chop;
    CutAt(front, back);
    CutInTwo(back, t);
    CutAt(front, back + t);
    assert front + "\n" + back + t == front + "\n" + (back + t);
  }

  // ----- Runs of readyRead events

  // The effect of one event when `arrival` is what the socket holds.
  function Fed(c: Cut, arrival: string): Cut {
    if |c.rest| + |arrival| > MAX_BUFFER_SIZE then Cut(c.lines, "")
    else
      var d := CutLines(c.rest + arrival);
      Cut(c.lines + d.lines, d.rest)
  }

  function FedAll(c: Cut, arrivals: seq<string>): Cut {
    if arrivals == [] then c else Fed(FedAll(c, arrivals[..|arrivals| - 1]), arrivals[|arrivals| - 1])
  }

  // No event of the run discards the buffer.
  predicate Fits(c: Cut, arrivals: seq<string>) {
    arrivals == []
    || (Fits(c, arrivals[..|arrivals| - 1])
        && |FedAll(c, arrivals[..|arrivals| - 1]).rest| + |arrivals[|arrivals| - 1]| <= MAX_BUFFER_SIZE)
  }

  function Concat(pieces: seq<string>): string {
    if pieces == [] then "" else Concat(pieces[..|pieces| - 1]) + pieces[|pieces| - 1]
  }

  lemma NothingToCut(rest: string)
    requires NoLF(rest)
    ensures CutLines(rest) == Cut([], rest)
  {
  }

  // However the stream is cut into events that fit, the outcome is that of the
  // whole stream.
  lemma {:induction false} ChunksDoNotMatter(rest: string, arrivals: seq<string>)
    requires NoLF(rest) && Fits(Cut([], rest), arrivals)
    ensures FedAll(Cut([], rest), arrivals) == CutLines(rest + Concat(arrivals))
  {
    hide CutLines;
    if arrivals == [] {
      NothingToCut(rest);
      assert rest + Concat(arrivals) == rest;
    } else {
      var front, last := arrivals[..|arrivals| - 1], arrivals[|arrivals| - 1];
      ChunksDoNotMatter(rest, front);
      CutInTwo(rest + Concat(front), last);
      assert rest + Concat(arrivals) == rest + Concat(front) + last;
    }
  }

  lemma SameStreamSameLines(rest: string, a: seq<string>, b: seq<string>)
    requires NoLF(rest) && Concat(a) == Concat(b)
    requires Fits(Cut([], rest), a) && Fits(Cut([], rest), b)
    ensures FedAll(Cut([], rest), a) == FedAll(Cut([], rest), b)
  {
    ChunksDoNotMatter(rest, a);
    ChunksDoNotMatter(rest, b);
  }

  // What was delivered before has no influence on what follows.
  lemma {:induction false} EarlierLinesStay(lines: seq<string>, c: Cut, arrivals: seq<string>)
    ensures var d := FedAll(c, arrivals);
            FedAll(Cut(lines + c.lines, c.rest), arrivals) == Cut(lines + d.lines, d.rest)
  {
    hide CutLines;
    if arrivals != [] {
      EarlierLinesStay(lines, c, arrivals[..|arrivals| - 1]);
    }
  }

  lemma {:induction false} FedOneFirst(c: Cut, arrivals: seq<string>)
    requires arrivals != []
    ensures FedAll(c, arrivals) == FedAll(Fed(c, arrivals[0]), arrivals[1..])
  {
    hide Fed;
    var k := |arrivals| - 1;
    if k > 0 {
      FedOneFirst(c, arrivals[..k]);
      assert arrivals[..k][0] == arrivals[0] && arrivals[..k][1..] == arrivals[1..][..k - 1];
      assert arrivals[1..][k - 1] == arrivals[k];
    } else {
      assert arrivals[..0] == [] && arrivals[1..] == [];
    }
  }

  // An event that overflows delivers nothing, and the events after it are read as on a new
  // connection.
  lemma OverflowRestarts(c: Cut, arrivals: seq<string>)
    requires arrivals != [] && |c.rest| + |arrivals[0]| > MAX_BUFFER_SIZE
    ensures var d := FedAll(Cut([], ""), arrivals[1..]);
            FedAll(c, arrivals) == Cut(c.lines + d.lines, d.rest)
  {
    hide FedAll;
    FedOneFirst(c, arrivals);
    EarlierLinesStay(c.lines, Cut([], ""), arrivals[1..]);
    assert c.lines + [] == c.lines;
  }

  // ----- Against the printed form

  // Each line ends in LF, or in CR LF where `crs` says so.
  function Printed(lines: seq<string>, crs: seq<bool>): string
    requires |crs| == |lines|
  {
    if lines == [] then ""
    else lines[0] + (if crs[0] then "\r\n" else "\n") + Printed(lines[1..], crs[1..])
  }

  // What a line keeps of itself: a bare LF takes a final CR of the text with it.
  function Read(line: string, cr: bool): string {
    if cr then line else Chop(line)
  }

  function ReadAll(lines: seq<string>, crs: seq<bool>): (r: seq<string>)
    requires |crs| == |lines|
    ensures |r| == |lines| && forall i :: 0 <= i < |lines| ==> r[i] == Read(lines[i], crs[i])
  {
    if lines == [] then [] else [Read(lines[0], crs[0])] + ReadAll(lines[1..], crs[1..])
  }

  lemma {:induction false} CutPrinted(lines: seq<string>, crs: seq<bool>, rest: string)
    requires |crs| == |lines| && NoLF(rest)
    requires forall i :: 0 <= i < |lines| ==> NoLF(lines[i])
    ensures CutLines(Printed(lines, crs) + rest) == Cut(ReadAll(lines, crs), rest)
  {
    hide CutLines, Read;
    if lines == [] {
      NothingToCut(rest);
      assert Printed(lines, crs) + rest == rest;
    } else {
      var first, more := lines[0] + (if crs[0] then "\r\n" else "\n"), Printed(lines[1..], crs[1..]);
      CutPrinted(lines[1..], crs[1..], rest);
      CutFirst(lines[0], crs[0], more + rest);
      assert Printed(lines, crs) + rest == first + (more + rest);
    }
  }

  predicate Exact(line: string, cr: bool) {
    cr || line == "" || line[|line| - 1] != '\r'
  }

  // A framed line comes back whole unless it ended in CR and was sent with a bare LF.
  lemma ReadAllIsExact(lines: seq<string>, crs: seq<bool>)
    requires |crs| == |lines|
    ensures ReadAll(lines, crs) == lines <==> forall i :: 0 <= i < |lines| ==> Exact(lines[i], crs[i])
  {
    forall i | 0 <= i < |lines|
      ensures ReadAll(lines, crs)[i] == lines[i] <==> Exact(lines[i], crs[i])
    {
    }
  }

  lemma CutFirst(line: string, cr: bool, back: string)
    requires NoLF(line)
    ensures CutLines(line + (if cr then "\r\n" else "\n") + back)
         == Cut([Read(line, cr)] + CutLines(back).lines, CutLines(back).rest)
  {
    hide CutLines;
    if cr {
      var raw := line + "\r";
      assert line + "\r\n" + back == raw + "\n" + back;
      assert Chop(raw) == line;
      CutAt(raw, back);
    } else {
      CutAt(line, back);
    }
  }

  // How many bytes an overflowing event reads: the chunk that overflows is the first
  // one, or the second where the first fits an empty buffer.
  function Taken(buffered: nat, available: nat): (n: nat)
    ensures n <= available
  {
    var chunks := if buffered == 0 then 2 * CHUNK_SIZE else CHUNK_SIZE;
    if available < chunks then available else chunks
  }

  // ----- The connection

  class Connection {
    var m_buffer: string
    // Bytes the socket has received and not yet handed over.
    var m_socket: string
    // Arguments of parseIncoming so far, and emissions of `disconnected`.
    var lines: seq<string>
    var disconnects: nat

    constructor ()
      ensures Valid() && m_buffer == "" && m_socket == "" && lines == [] && disconnects == 0
    {
      m_buffer, m_socket, lines, disconnects := "", "", [], 0;
    }

    // Between events the buffer holds an unfinished line within the size limit.
    ghost predicate Valid()
      reads this
    {
      NoLF(m_buffer) && |m_buffer| <= MAX_BUFFER_SIZE
    }

    ghost function State(): Cut
      reads this
    {
      Cut(lines, m_buffer)
    }

    method OnReadyRead()
      requires Valid()
      modifies this
      ensures Valid()
      ensures State() == Fed(old(State()), old(m_socket))
      ensures if |old(m_buffer)| + |old(m_socket)| > MAX_BUFFER_SIZE
              then && disconnects == old(disconnects) + 1
                   && m_socket == old(m_socket[Taken(|m_buffer|, |m_socket|)..])
              else disconnects == old(disconnects) && m_socket == ""
    {
      hide IndexOf;
      ghost var read := 0;
      while |m_socket| > 0
        invariant m_buffer + m_socket == old(m_buffer + m_socket) && |m_buffer| <= MAX_BUFFER_SIZE
        invariant read <= |old(m_socket)| && m_socket == old(m_socket)[read..]
        invariant read == 0 || read == |old(m_socket)| || (old(m_buffer) == "" && read == CHUNK_SIZE)
        invariant lines == old(lines) && disconnects == old(disconnects)
        decreases |m_socket|
      {
        var n := if |m_socket| < CHUNK_SIZE then |m_socket| else CHUNK_SIZE;
        var chunk := m_socket[..n];
        m_socket, read := m_socket[n..], read + n;
        m_buffer := m_buffer + chunk;
        if |m_buffer| > MAX_BUFFER_SIZE {
          assert |m_buffer| + |m_socket| == |old(m_buffer + m_socket)|;
          m_buffer := "";
          disconnects := disconnects + 1;
          return;
        }
      }
      ghost var c := CutLines(old(m_buffer + m_socket));
      assert m_buffer == old(m_buffer + m_socket);
      while true
        invariant |m_buffer| <= MAX_BUFFER_SIZE && m_socket == "" && disconnects == old(disconnects)
        invariant lines + CutLines(m_buffer).lines == old(lines) + c.lines && CutLines(m_buffer).rest == c.rest
        decreases |m_buffer|
      {
        var n := IndexOf(m_buffer, '\n');
        if n < 0 {
          break;
        }
        var raw := m_buffer[..n];
        if raw != "" && raw[|raw| - 1] == '\r' {
          raw := raw[..|raw| - 1];
        }
        ghost var d := CutLines(m_buffer[n + 1..]);
        assert CutLines(m_buffer).lines == [raw] + d.lines;
        assert lines + ([raw] + d.lines) == (lines + [raw]) + d.lines;
        m_buffer := m_buffer[n + 1..];
        lines := lines + [raw];
      }
    }
  }
}
