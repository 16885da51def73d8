/** A segment file byte by byte: complete lines and an unterminated fragment, the backward chunked
    scans over them, and what a crashed append leaves on disk. */
module TrailBytes {
  import opened Records
  import opened TrailLog

  newtype Byte = x: int | 0 <= x < 256
  type Bytes = seq<Byte>

  const NL: Byte := 10
  const CHUNK: nat := 4096

  // ---------------------------------------------------------------- lines of a file

  datatype Parsed = Parsed(lines: seq<Bytes>, fragment: Bytes)

  /** The complete lines of a file and the fragment behind the last newline. */
  function Parse(b: Bytes): Parsed {
    if b == [] then Parsed([], [])
    else
      var p := Parse(b[..|b| - 1]);
      if b[|b| - 1] == NL then Parsed(p.lines + [p.fragment], [])
      else Parsed(p.lines, p.fragment + [b[|b| - 1]])
  }

  function PrintLines(lines: seq<Bytes>): Bytes {
    if lines == [] then [] else PrintLines(lines[..|lines| - 1]) + lines[|lines| - 1] + [NL]
  }

  /** The length of the longest newline-terminated prefix. */
  function Terminated(b: Bytes): (n: nat)
    ensures n <= |b|
    ensures n == 0 || b[n - 1] == NL
    ensures forall k :: n <= k < |b| ==> b[k] != NL
  {
    if b == [] then 0 else if b[|b| - 1] == NL then |b| else Terminated(b[..|b| - 1])
  }

  ghost predicate OneLine(b: Bytes) {
    NL !in b
  }

  lemma {:induction false} ParseMore(b: Bytes, t: Bytes)
    requires OneLine(t)
    ensures Parse(b + t) == Parsed(Parse(b).lines, Parse(b).fragment + t)
  {
    if t == [] {
      assert b + t == b;
    } else {
      assert (b + t)[..|b + t| - 1] == b + t[..|t| - 1];
      ParseMore(b, t[..|t| - 1]);
      assert t == t[..|t| - 1] + [t[|t| - 1]];
    }
  }

  lemma ParseNewline(b: Bytes)
    ensures Parse(b + [NL]) == Parsed(Parse(b).lines + [Parse(b).fragment], [])
  {
    assert (b + [NL])[..|b|] == b;
  }

  /** Lines written behind a fragment: the fragment becomes part of the first of them. */
  lemma {:induction false} ParseAppend(b: Bytes, lines: seq<Bytes>)
    requires forall i :: 0 <= i < |lines| ==> OneLine(lines[i])
    ensures lines == [] ==> Parse(b + PrintLines(lines)) == Parse(b)
    ensures lines != [] ==>
              Parse(b + PrintLines(lines)) ==
              Parsed(Parse(b).lines + [Parse(b).fragment + lines[0]] + lines[1..], [])
  {
    if lines == [] {
      assert b + PrintLines(lines) == b;
    } else {
      var first, last := lines[..|lines| - 1], lines[|lines| - 1];
      hide *;
      PrintLast(b, lines);
      ParseAppend(b, first);
      ParseMore(b + PrintLines(first), last);
      ParseNewline((b + PrintLines(first)) + last);
      AppendOne(Parse(b).lines, Parse(b).fragment, lines);
    }
  }

  lemma PrintLast(b: Bytes, lines: seq<Bytes>)
    requires lines != []
    ensures b + PrintLines(lines) == ((b + PrintLines(lines[..|lines| - 1])) + lines[|lines| - 1]) + [NL]
  {
    hide *;
    LinesAre(lines);
    Behind(b, PrintLines(lines[..|lines| - 1]), lines[|lines| - 1], [NL]);
  }

  lemma LinesAre(lines: seq<Bytes>)
    requires lines != []
    ensures PrintLines(lines) == PrintLines(lines[..|lines| - 1]) + lines[|lines| - 1] + [NL]
  {
  }

  lemma Behind<T>(a: seq<T>, b: seq<T>, c: seq<T>, d: seq<T>)
    ensures a + (b + c + d) == ((a + b) + c) + d
  {
  }

  /** One more line behind a fragment. */
  lemma AppendOne<T>(a: seq<seq<T>>, f: seq<T>, lines: seq<seq<T>>)
    requires lines != []
    ensures var first, last, all := lines[..|lines| - 1], lines[|lines| - 1], a + [f + lines[0]] + lines[1..];
            if first == [] then a + [f + last] == all
            else a + [f + first[0]] + first[1..] + [[] + last] == all
  {
    var first, last := lines[..|lines| - 1], lines[|lines| - 1];
    assert [] + last == last;
    if first != [] {
      assert lines[1..] == first[1..] + [last];
    }
  }

  /** Writing whole lines and reading them back. */
  lemma RoundTrip(lines: seq<Bytes>)
    requires forall i :: 0 <= i < |lines| ==> OneLine(lines[i])
    ensures Parse(PrintLines(lines)) == Parsed(lines, [])
  {
    ParseNone();
    hide Parse, PrintLines;
    ParseAppend([], lines);
    assert [] + PrintLines(lines) == PrintLines(lines);
    if lines != [] {
      assert [] + lines[0] == lines[0];
      assert [] + [lines[0]] + lines[1..] == lines;
    }
  }

  lemma ParseNone()
    ensures Parse([]) == Parsed([], []) && PrintLines([]) == []
  {
  }

  /** Whatever prefix of the written bytes reached the disk, it is whole lines and then a fragment of
      the next one. */
  lemma {:induction false} TornAppend(lines: seq<Bytes>, m: nat) returns (n: nat)
    requires forall i :: 0 <= i < |lines| ==> OneLine(lines[i])
    requires m <= |PrintLines(lines)|
    ensures n <= |lines| && Parse(PrintLines(lines)[..m]).lines == lines[..n]
    ensures n < |lines| ==> Parse(PrintLines(lines)[..m]).fragment <= lines[n]
    ensures n == |lines| <==> m == |PrintLines(lines)|
    ensures n == |lines| ==> Parse(PrintLines(lines)[..m]).fragment == []
  {
    if m == |PrintLines(lines)| {
      RoundTrip(lines);
      assert PrintLines(lines)[..m] == PrintLines(lines);
      return |lines|;
    }
    var first, last := lines[..|lines| - 1], lines[|lines| - 1];
    var whole := PrintLines(first);
    assert PrintLines(lines) == whole + last + [NL];
    if m < |whole| {
      n := TornAppend(first, m);
      assert PrintLines(lines)[..m] == whole[..m];
      assert lines[..n] == first[..n];
    } else {
      n := |first|;
      var part := last[..m - |whole|];
      assert PrintLines(lines)[..m] == whole + part;
      RoundTrip(first);
      ParseMore(whole, part);
    }
  }

  // ---------------------------------------------------------------- heal, as a value

  /** The terminated prefix holds exactly the complete lines. */
  lemma {:induction false} HealParse(b: Bytes)
    ensures Parse(b[..Terminated(b)]) == Parsed(Parse(b).lines, [])
    ensures Terminated(b) == |b| <==> Parse(b).fragment == []
    ensures |Parse(b).fragment| == |b| - Terminated(b)
  {
    if b != [] {
      var n := Terminated(b);
      if b[|b| - 1] == NL {
        assert b[..n] == b;
      } else {
        HealParse(b[..|b| - 1]);
        assert b[..|b| - 1][..n] == b[..n];
      }
    }
  }

  /** It is the longest newline-terminated prefix, and healing twice is healing once. */
  lemma HealLongest(b: Bytes, n: nat)
    requires n <= |b| && (n == 0 || b[n - 1] == NL)
    ensures n <= Terminated(b)
    ensures Terminated(b[..Terminated(b)]) == Terminated(b)
  {
    var t := Terminated(b);
    if t > 0 {
      assert b[..t][t - 1] == NL;
    }
  }

  // ---------------------------------------------------------------- the scans

  /** The index of the last newline in `data`, or -1. */
  method RFind(data: Bytes, end: nat) returns (at: int)
    requires end <= |data|
    ensures -1 <= at < end && (at >= 0 ==> data[at] == NL)
    ensures forall k :: at < k < end ==> data[k] != NL
  {
    at := end - 1;
    while at >= 0 && data[at] != NL
      invariant -1 <= at < end
      invariant forall k :: at < k < end ==> data[k] != NL
    {
      at := at - 1;
    }
  }

  /** The last newline at `q`, the one before it at `p` (or none: -1): the line between them is the
      last complete one. */
  lemma LastLineAt(b: Bytes, p: int, q: nat)
    requires -1 <= p < q < |b| && b[q] == NL && (p >= 0 ==> b[p] == NL)
    requires forall k :: p < k < |b| && k != q ==> b[k] != NL
    ensures Parse(b).lines != [] && Parse(b).lines[|Parse(b).lines| - 1] == b[p + 1..q]
  {
    hide Parse;
    var head, line, tail := b[..p + 1], b[p + 1..q], b[q + 1..];
    assert OneLine(line) && OneLine(tail);
    assert b == ((head + line) + [NL]) + tail;
    FreshLine(b, p);
    ParseMore(head, line);
    ParseNewline(head + line);
    ParseMore((head + line) + [NL], tail);
    assert [] + line == line;
  }

  /** Right behind a newline, or at the start, no fragment is pending. */
  lemma FreshLine(b: Bytes, p: int)
    requires -1 <= p < |b| && (p >= 0 ==> b[p] == NL)
    ensures Parse(b[..p + 1]).fragment == []
  {
    if p >= 0 {
      assert b[..p + 1] == b[..p] + [NL];
      ParseNewline(b[..p]);
    }
  }

  lemma NoNewline(b: Bytes)
    requires OneLine(b)
    ensures Parse(b).lines == []
  {
    ParseMore([], b);
    assert [] + b == b;
  }

  /** One segment file.  `strip` decodes a line and trims it. */
  class ByteFile {
    var bytes: Bytes
    const strip: Bytes -> Bytes

    constructor (bytes: Bytes, strip: Bytes -> Bytes)
      ensures this.bytes == bytes && this.strip == strip
    {
      this.bytes, this.strip := bytes, strip;
    }

    /** The offset just past the last newline before `size`, found chunk by chunk from the end. */
    method LastNewlineOffset(size: nat) returns (off: nat)
      requires size == |bytes|
      ensures off == Terminated(bytes)
    {
      var pos := size;
      while pos > 0
        invariant 0 <= pos <= size && forall k :: pos <= k < size ==> bytes[k] != NL
      {
        var read := if CHUNK < pos then CHUNK else pos;
        pos := pos - read;
        var data := bytes[pos..pos + read];
        var nl := RFind(data, |data|);
        assert forall k :: 0 <= k < read ==> data[k] == bytes[pos + k];
        if nl != -1 {
          off := pos + nl + 1;
          assert forall k :: pos + nl < k < pos + read ==> bytes[k] == data[k - pos];
          HealLongest(bytes, off);
          return;
        }
        assert forall k :: pos <= k < pos + read ==> bytes[k] == data[k - pos];
      }
      off := 0;
    }

    /** Truncates the file behind its last newline. */
    method HealTornTail() returns (healed: bool)
      modifies this
      ensures bytes == old(bytes)[..Terminated(old(bytes))]
      ensures healed <==> bytes != old(bytes)
    {
      var size := |bytes|;
      assert bytes[..size] == bytes;
      if size == 0 || bytes[size - 1] == NL {
        return false;
      }
      var keep := LastNewlineOffset(size);
      bytes := bytes[..keep];
      healed := true;
    }

    /** The last complete line, read backward in chunks; a blank one counts as none. */
    method LastCompleteLineIn() returns (line: Option<Bytes>)
      ensures line == LastLine(bytes, strip)
    {
      var pos := |bytes|;
      var data: Bytes := [];
      while pos > 0
        invariant 0 <= pos <= |bytes| && data == bytes[pos..]
        invariant pos == 0 ==> OneLine(data)
      {
        var read := if CHUNK < pos then CHUNK else pos;
        pos := pos - read;
        data := bytes[pos..pos + read] + data;
        assert data == bytes[pos..];
        var lastNl := RFind(data, |data|);
        if lastNl != -1 {
          var prevNl := RFind(data, lastNl);
          if prevNl != -1 || pos == 0 {
            assert forall k :: 0 <= k < |data| ==> data[k] == bytes[pos + k];
            LineFound(bytes, pos, data, prevNl, lastNl);
            line := Stripped(data[prevNl + 1..lastNl], strip);
            return;
          }
        }
      }
      NoNewline(bytes);
      line := None;
    }
  }

  lemma LineFound(b: Bytes, pos: nat, data: Bytes, p: int, q: nat)
    requires pos <= |b| && data == b[pos..]
    requires -1 <= p < q < |data| && data[q] == NL && (p >= 0 ==> data[p] == NL) && (p == -1 ==> pos == 0)
    requires forall k :: p < k < |data| && k != q ==> data[k] != NL
    ensures Parse(b).lines != [] && Parse(b).lines[|Parse(b).lines| - 1] == data[p + 1..q]
  {
    hide *;
    forall k | pos + p < k < |b| && k != pos + q ensures b[k] != NL {
      assert b[k] == data[k - pos];
    }
    InnerSlice(b, pos, p + 1, q);
    LastLineAt(b, pos + p, pos + q);
  }

  lemma InnerSlice<T>(b: seq<T>, pos: nat, i: nat, j: nat)
    requires pos <= |b| && i <= j <= |b| - pos
    ensures b[pos + i..pos + j] == b[pos..][i..j]
  {
  }

  function Stripped(line: Bytes, strip: Bytes -> Bytes): Option<Bytes> {
    if strip(line) == [] then None else Some(strip(line))
  }

  /** The last complete line of a file, unless there is none or it is blank. */
  function LastLine(b: Bytes, strip: Bytes -> Bytes): Option<Bytes> {
    var lines := Parse(b).lines;
    if lines == [] then None else Stripped(lines[|lines| - 1], strip)
  }

  /** Across segments: the active file's, or else an earlier one's. */
  function LastLineOf(files: seq<Bytes>, strip: Bytes -> Bytes): Option<Bytes> {
    if files == [] then None
    else if LastLine(files[|files| - 1], strip).Some? then LastLine(files[|files| - 1], strip)
    else LastLineOf(files[..|files| - 1], strip)
  }

  /** Healing the active file does not change what the tail of the trail is, also when it leaves that
      file empty. */
  lemma HealKeepsTail(files: seq<Bytes>, strip: Bytes -> Bytes)
    requires files != []
    ensures var k := |files| - 1;
            LastLineOf(files[k := files[k][..Terminated(files[k])]], strip) == LastLineOf(files, strip)
  {
    var k := |files| - 1;
    var healed := files[k := files[k][..Terminated(files[k])]];
    HealParse(files[k]);
    assert healed[..k] == files[..k];
  }

  // ---------------------------------------------------------------- records on disk

  /** A line codec: an encoded record is one line and reads back; what does not parse is corrupt. */
  datatype Codec = Codec(enc: Record -> Bytes, dec: Bytes -> Line)

  ghost predicate GoodCodec(c: Codec) {
    forall r :: OneLine(c.enc(r)) && c.dec(c.enc(r)) == Rec(r)
  }

  function Encoded(c: Codec, rs: seq<Record>): (lines: seq<Bytes>)
    ensures |lines| == |rs| && forall i :: 0 <= i < |rs| ==> lines[i] == c.enc(rs[i])
  {
    seq(|rs|, i requires 0 <= i < |rs| => c.enc(rs[i]))
  }

  function Decoded(c: Codec, lines: seq<Bytes>): (out: seq<Line>)
    ensures |out| == |lines| && forall i :: 0 <= i < |lines| ==> out[i] == c.dec(lines[i])
  {
    seq(|lines|, i requires 0 <= i < |lines| => c.dec(lines[i]))
  }

  /** A file's contents as the trail sees them. */
  function Seen(c: Codec, idx: nat, b: Bytes): SegFile {
    SegFile(idx, Decoded(c, Parse(b).lines), |Parse(b).fragment|)
  }

  /** Healing a file drops its torn tail and nothing else. */
  lemma HealSeen(c: Codec, idx: nat, b: Bytes)
    ensures Seen(c, idx, b[..Terminated(b)]) == Seen(c, idx, b).(torn := 0)
    ensures Seen(c, idx, b).torn == 0 <==> Terminated(b) == |b|
  {
    HealParse(b);
  }

  /** A healed file plus any byte prefix of an append holds a prefix of the records and perhaps a torn
      one, and nothing is torn when all of them are there. */
  lemma CrashedAppend(c: Codec, idx: nat, b: Bytes, rs: seq<Record>, m: nat) returns (n: nat)
    requires GoodCodec(c) && Seen(c, idx, b).torn == 0 && m <= |PrintLines(Encoded(c, rs))|
    ensures n <= |rs|
    ensures var now := Seen(c, idx, b + PrintLines(Encoded(c, rs))[..m]);
            && now.lines == Seen(c, idx, b).lines + Lines(rs[..n])
            && (n == |rs| <==> m == |PrintLines(Encoded(c, rs))|)
            && (n == |rs| ==> now.torn == 0)
  {
    var lines := Encoded(c, rs);
    var part := PrintLines(lines)[..m];
    n := TornAppend(lines, m);
    ParseJoin(b, part);
    assert Decoded(c, Parse(b).lines + lines[..n]) == Decoded(c, Parse(b).lines) + Lines(rs[..n]);
  }

  /** Behind a terminated file, more bytes are lines of their own. */
  lemma {:induction false} ParseJoin(b: Bytes, t: Bytes)
    requires Parse(b).fragment == []
    ensures Parse(b + t) == Parsed(Parse(b).lines + Parse(t).lines, Parse(t).fragment)
  {
    if t == [] {
      assert b + t == b;
    } else {
      assert (b + t)[..|b + t| - 1] == b + t[..|t| - 1];
      ParseJoin(b, t[..|t| - 1]);
    }
  }

  /** Without the heal, the first record of the next append would be lost in the fragment's line. */
  lemma UnhealedAppend(c: Codec, idx: nat, b: Bytes, r: Record)
    requires GoodCodec(c)
    ensures Seen(c, idx, b + PrintLines([c.enc(r)])).lines ==
            Seen(c, idx, b).lines + [c.dec(Parse(b).fragment + c.enc(r))]
  {
    ParseAppend(b, [c.enc(r)]);
  }
}
