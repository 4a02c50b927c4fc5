/**
 * Line framing of the GPS receiver's UART byte stream (uart_read_line).
 *
 * The C function reads the stream one byte at a time, straight into a static
 * 255-character buffer, and returns that buffer once it has stored a line feed
 * followed by a NUL. The UART is abstracted as the sequence of results its
 * one-byte reads will return; a read either delivers one byte or nothing.
 */
module Framing {

  /** Size of `static char line[255]`. */
  const LineCapacity: nat := 255

  /** Outcome of one `uart_read_bytes(port, ptr, 1, portMAX_DELAY)` call:
      exactly one byte, or any other count (timeout, driver error), which stores nothing. */
  datatype ReadResult = Byte(b: char) | Nothing

  /** The bytes one read stores: its byte, or none. */
  function Delivered(r: ReadResult): (bs: seq<char>)
    ensures |bs| == if r.Byte? then 1 else 0
  {
    match r
    case Byte(b) => [b]
    case Nothing => []
  }

  /** The bytes actually delivered by a run of reads, in order. */
  function Received(rs: seq<ReadResult>): (bs: seq<char>)
    ensures |bs| <= |rs|
  {
    if rs == [] then [] else Delivered(rs[0]) + Received(rs[1..])
  }

  lemma {:induction false} ReceivedAppend(xs: seq<ReadResult>, ys: seq<ReadResult>)
    ensures Received(xs + ys) == Received(xs) + Received(ys)
  {
    if xs != [] {
      assert (xs + ys)[0] == xs[0];
      assert (xs + ys)[1..] == xs[1..] + ys;
      ReceivedAppend(xs[1..], ys);
      assert Received(xs + ys) == Delivered(xs[0]) + (Received(xs[1..]) + Received(ys));
    } else {
      assert xs + ys == ys;
    }
  }

  /** Reads that deliver nothing, wherever they fall, change nothing about what is received. */
  lemma NothingReadsAreIgnored(xs: seq<ReadResult>, ys: seq<ReadResult>)
    ensures Received(xs + [Nothing] + ys) == Received(xs + ys)
  {
    ReceivedAppend(xs + [Nothing], ys);
    ReceivedAppend(xs, [Nothing]);
    ReceivedAppend(xs, ys);
    assert Received([Nothing]) == [];
  }

  /** Position of the first line feed among the received bytes, or |bs| when there is none. */
  function LfIndex(bs: seq<char>): (k: nat)
    ensures k <= |bs|
    ensures k < |bs| ==> bs[k] == '\n'
  {
    if bs == [] || bs[0] == '\n' then 0 else LfIndex(bs[1..]) + 1
  }

  /** A line feed has arrived. */
  predicate HasLf(bs: seq<char>)
  {
    LfIndex(bs) < |bs|
  }

  /** No line feed comes before the position LfIndex reports. */
  lemma {:induction false} LfIndexIsFirst(bs: seq<char>)
    ensures forall j :: 0 <= j < LfIndex(bs) ==> bs[j] != '\n'
  {
    if bs != [] && bs[0] != '\n' {
      LfIndexIsFirst(bs[1..]);
      forall j | 1 <= j < LfIndex(bs) ensures bs[j] != '\n' {
        assert bs[j] == bs[1..][j - 1];
      }
    }
  }

  /** HasLf is exactly "some byte is a line feed". */
  lemma HasLfIff(bs: seq<char>)
    ensures HasLf(bs) <==> '\n' in bs
  {
    LfIndexIsFirst(bs);
  }

  /** The first line feed is the one with no line feed before it. */
  lemma LfIndexUnique(bs: seq<char>, m: nat)
    requires m < |bs| && bs[m] == '\n'
    requires forall j :: 0 <= j < m ==> bs[j] != '\n'
    ensures LfIndex(bs) == m
  {
    LfIndexIsFirst(bs);
  }

  /** Some line feed is among the first `n` received bytes. */
  predicate LfWithin(bs: seq<char>, n: nat)
  {
    exists j :: 0 <= j < |bs| && j < n && bs[j] == '\n'
  }

  /** A line feed among the first `n` bytes means the first line feed is among them. */
  lemma LfWithinIff(bs: seq<char>, n: nat)
    ensures LfWithin(bs, n) <==> HasLf(bs) && LfIndex(bs) < n
  {
    LfIndexIsFirst(bs);
  }

  /** What `uart_read_line` needs of the stream so that its writes stay inside `line`:
      the first line feed arrives among the first LineCapacity - 1 bytes. */
  predicate FitsLine(bs: seq<char>)
  {
    HasLf(bs) && LfIndex(bs) < LineCapacity - 1
  }

  /** Number of reads the framer performs: up to and including the one that delivers the
      first line feed (all of them when none does). */
  function ReadsToLf(rs: seq<ReadResult>): (n: nat)
    ensures n <= |rs|
    ensures n == |rs| || (0 < n && rs[n - 1] == Byte('\n'))
  {
    if rs == [] then 0
    else if rs[0] == Byte('\n') then 1
    else ReadsToLf(rs[1..]) + 1
  }

  /** Splitting the reads: the first `i` reads deliver a prefix of the bytes. */
  lemma ReceivedPrefix(rs: seq<ReadResult>, i: nat)
    requires i <= |rs|
    ensures Received(rs) == Received(rs[..i]) + Received(rs[i..])
  {
    assert rs == rs[..i] + rs[i..];
    ReceivedAppend(rs[..i], rs[i..]);
  }

  /** No read before the one ReadsToLf counts last delivers a line feed. */
  lemma {:induction false} ReadsBeforeLf(rs: seq<ReadResult>)
    ensures forall j :: 0 <= j < ReadsToLf(rs) - 1 ==> rs[j] != Byte('\n')
  {
    if rs != [] && rs[0] != Byte('\n') {
      ReadsBeforeLf(rs[1..]);
      forall j | 1 <= j < ReadsToLf(rs) - 1 ensures rs[j] != Byte('\n') {
        assert rs[j] == rs[1..][j - 1];
      }
    }
  }

  /** A byte that is not a line feed, put in front, moves the first line feed by one. */
  lemma LfIndexCons(c: char, t: seq<char>)
    requires c != '\n'
    ensures LfIndex([c] + t) == LfIndex(t) + 1
  {
    assert ([c] + t)[1..] == t;
  }

  /** A first read that is not a line feed shifts the first line feed by the bytes it delivers. */
  lemma LfIndexAfterRead(rs: seq<ReadResult>)
    requires rs != [] && rs[0] != Byte('\n')
    ensures |Received(rs)| == |Delivered(rs[0])| + |Received(rs[1..])|
    ensures LfIndex(Received(rs)) == |Delivered(rs[0])| + LfIndex(Received(rs[1..]))
  {
    assert Received(rs) == Delivered(rs[0]) + Received(rs[1..]);
    match rs[0]
    case Byte(c) =>
      assert Received(rs) == [c] + Received(rs[1..]);
      LfIndexCons(c, Received(rs[1..]));
    case Nothing =>
      assert Received(rs) == Received(rs[1..]);
  }

  /** Once a line feed is among the received bytes, the last read counted by ReadsToLf
      is the one that delivered it. */
  lemma {:induction false} LfArrives(rs: seq<ReadResult>)
    requires HasLf(Received(rs))
    ensures 0 < ReadsToLf(rs) && rs[ReadsToLf(rs) - 1] == Byte('\n')
  {
    if rs[0] != Byte('\n') {
      LfIndexAfterRead(rs);
      LfArrives(rs[1..]);
    }
  }

  /** Reads none of which is a line feed deliver no line feed. */
  lemma {:induction false} NoLfReceived(rs: seq<ReadResult>)
    requires forall j :: 0 <= j < |rs| ==> rs[j] != Byte('\n')
    ensures LfIndex(Received(rs)) == |Received(rs)|
  {
    if rs != [] {
      assert forall j :: 0 <= j < |rs[1..]| ==> rs[1..][j] == rs[j + 1];
      NoLfReceived(rs[1..]);
      LfIndexAfterRead(rs);
    }
  }

  /** Bytes free of line feeds shift the first line feed of what follows them. */
  lemma {:induction false} LfIndexAppend(a: seq<char>, b: seq<char>)
    requires LfIndex(a) == |a|
    ensures LfIndex(a + b) == |a| + LfIndex(b)
  {
    if a != [] {
      assert (a + b)[0] == a[0] && (a + b)[1..] == a[1..] + b;
      LfIndexAppend(a[1..], b);
    } else {
      assert a + b == b;
    }
  }

  /** Before the line feed's read, the reads so far deliver no line feed, so the first
      line feed lies in what the remaining reads deliver. */
  lemma ReadSplit(src: seq<ReadResult>, i: nat)
    requires HasLf(Received(src)) && i < ReadsToLf(src)
    ensures Received(src) == Received(src[..i]) + Received(src[i..])
    ensures LfIndex(Received(src)) == |Received(src[..i])| + LfIndex(Received(src[i..]))
  {
    ReadsBeforeLf(src);
    ReceivedPrefix(src, i);
    assert forall j :: 0 <= j < |src[..i]| ==> src[..i][j] == src[j];
    NoLfReceived(src[..i]);
    LfIndexAppend(Received(src[..i]), Received(src[i..]));
  }

  /** Read `i` adds its own bytes, and only those, to what the reads before it delivered. */
  lemma ReadOne(src: seq<ReadResult>, i: nat)
    requires i < |src|
    ensures Received(src[i..]) == Delivered(src[i]) + Received(src[i + 1..])
    ensures Received(src[..i + 1]) == Received(src[..i]) + Delivered(src[i])
  {
    assert src[i..][0] == src[i] && src[i..][1..] == src[i + 1..];
    assert src[..i + 1] == src[..i] + [src[i]];
    ReceivedAppend(src[..i], [src[i]]);
    assert Received([src[i]]) == Delivered(src[i]) by {
      assert [src[i]][1..] == [];
    }
  }

  /** One read of the framer. Before read `i` (not past the line feed) the framer has
      stored `p` bytes, the count the first `i` reads delivered. The read exists; it
      stores the next received byte or nothing; it is the last read exactly when it
      delivers the line feed; and until then the stored bytes stay before the first
      line feed. */
  lemma ReadStep(src: seq<ReadResult>, i: nat)
    requires HasLf(Received(src)) && i < ReadsToLf(src)
    ensures i < |src|
    ensures |Received(src[..i])| <= LfIndex(Received(src))
    ensures src[i].Byte? ==> Received(src)[|Received(src[..i])|] == src[i].b
    ensures src[i].Byte? ==> |Received(src[..i + 1])| == |Received(src[..i])| + 1
    ensures src[i].Nothing? ==> |Received(src[..i + 1])| == |Received(src[..i])|
    ensures src[i] == Byte('\n') <==> ReadsToLf(src) == i + 1
    ensures src[i] == Byte('\n') ==> |Received(src[..i])| == LfIndex(Received(src))
    ensures src[i].Byte? && src[i].b != '\n' ==> |Received(src[..i])| < LfIndex(Received(src))
  {
    LfArrives(src);
    ReadsBeforeLf(src);
    ReadSplit(src, i);
    ReadOne(src, i);
    var rest := Received(src[i..]);
    if src[i].Byte? {
      assert rest[0] == src[i].b;
    }
  }

  /** The reads the framer consumes deliver exactly the line, through its line feed:
      nothing of the following line is taken from the stream. */
  lemma {:induction false} ReadsDeliverLine(rs: seq<ReadResult>)
    requires HasLf(Received(rs))
    ensures Received(rs[..ReadsToLf(rs)]) == Received(rs)[..LfIndex(Received(rs)) + 1]
  {
    var bs := Received(rs);
    var n := ReadsToLf(rs);
    assert rs[..n][0] == rs[0];
    if rs[0] == Byte('\n') {
      assert rs[..n][1..] == [];
    } else {
      var tail := rs[1..];
      assert rs[..n][1..] == tail[..ReadsToLf(tail)];
      assert Received(rs[..n]) == Delivered(rs[0]) + Received(tail[..ReadsToLf(tail)]);
      assert bs == Delivered(rs[0]) + Received(tail);
      LfIndexAfterRead(rs);
      ReadsDeliverLine(tail);
      if rs[0].Byte? {
        assert bs[..LfIndex(bs) + 1] == [bs[0]] + Received(tail)[..LfIndex(Received(tail)) + 1];
      }
    }
  }

  /** What the buffer holds at its start once a line has been framed:
      the received bytes through the first line feed, then the NUL terminator. */
  ghost function Line(bs: seq<char>): seq<char>
    requires HasLf(bs)
  {
    bs[..LfIndex(bs) + 1] + ['\0']
  }

  /** The framed line, element by element: every byte before the line feed is copied
      unchanged (a carriage return included), the line feed is kept, a NUL follows, and
      there is no earlier line feed. */
  lemma LineContents(bs: seq<char>)
    requires HasLf(bs)
    ensures var l := Line(bs); var k := LfIndex(bs);
      |l| == k + 2 &&
      (forall j :: 0 <= j <= k ==> l[j] == bs[j]) &&
      l[k] == '\n' && l[k + 1] == '\0' &&
      forall j :: 0 <= j < k ==> l[j] != '\n'
  {
    LfIndexIsFirst(bs);
  }

  /** A buffer that agrees with the framed line on its first cells and with an earlier
      snapshot of itself on the rest holds that line followed by the snapshot's tail. */
  lemma OverlaidLine(bs: seq<char>, before: seq<char>, a: array<char>)
    requires HasLf(bs) && a.Length == |before| && LfIndex(bs) + 2 <= a.Length
    requires forall j :: 0 <= j <= LfIndex(bs) ==> a[j] == bs[j]
    requires a[LfIndex(bs) + 1] == '\0'
    requires forall j :: LfIndex(bs) + 2 <= j < a.Length ==> a[j] == before[j]
    ensures a[..] == Line(bs) + before[LfIndex(bs) + 2..]
  {
    LineContents(bs);
  }

  /** Buffer positions the framer writes for the stream `bs`, in order: one per byte
      through the line feed, then the one that receives the NUL. */
  ghost function WrittenIndices(bs: seq<char>): seq<int>
    requires HasLf(bs)
  {
    seq(LfIndex(bs) + 2, w => w)
  }

  /** Writing each position once, in order, through the NUL after the line feed writes
      exactly WrittenIndices. */
  lemma WrittenInOrder(bs: seq<char>, written: seq<int>)
    requires HasLf(bs) && |written| == LfIndex(bs) + 2
    requires forall j :: 0 <= j < |written| ==> written[j] == j
    ensures written == WrittenIndices(bs)
  {
  }

  /** Once a line feed arrives, every write stays inside `line[0..254]` exactly when a
      line feed is among the first 254 received bytes. Nothing in the C code checks this. */
  lemma WritesInBoundsIff(bs: seq<char>)
    requires HasLf(bs)
    ensures (forall j :: 0 <= j < |WrittenIndices(bs)| ==> 0 <= WrittenIndices(bs)[j] < LineCapacity)
        <==> LfWithin(bs, LineCapacity - 1)
    ensures LfWithin(bs, LineCapacity - 1) <==> FitsLine(bs)
  {
    var k := LfIndex(bs);
    LfWithinIff(bs, LineCapacity - 1);
    assert WrittenIndices(bs)[k + 1] == k + 1;
  }

  /** A concrete stream the C code does not survive: 254 bytes other than a line feed and
      then a line feed. The line feed lands in `line[254]`, and the NUL goes to `line[255]`,
      one past the end of the buffer. */
  lemma OverflowWitness()
    ensures var bs := seq(LineCapacity - 1, _ => 'A') + ['\n'];
      HasLf(bs) && !FitsLine(bs) &&
      WrittenIndices(bs)[|WrittenIndices(bs)| - 1] == LineCapacity
  {
    var bs := seq(LineCapacity - 1, _ => 'A') + ['\n'];
    LfIndexUnique(bs, LineCapacity - 1);
  }

  /** The text a C reader of a `char *` sees: everything before the first NUL. */
  function CString(s: seq<char>): (t: seq<char>)
    ensures |t| <= |s| && t == s[..|t|]
    ensures forall j :: 0 <= j < |t| ==> t[j] != '\0'
    ensures |t| < |s| ==> s[|t|] == '\0'
  {
    if s == [] || s[0] == '\0' then []
    else [s[0]] + CString(s[1..])
  }

  lemma {:induction false} CStringStopsAtNul(p: seq<char>, rest: seq<char>)
    requires forall j :: 0 <= j < |p| ==> p[j] != '\0'
    ensures CString(p + ['\0'] + rest) == p
  {
    if p != [] {
      assert (p + ['\0'] + rest)[1..] == p[1..] + ['\0'] + rest;
      CStringStopsAtNul(p[1..], rest);
    } else {
      assert (p + ['\0'] + rest)[0] == '\0';
    }
  }

  /** Whatever follows a NUL is invisible to a C reader. */
  lemma {:induction false} CStringIgnoresAfterNul(p: seq<char>, rest: seq<char>)
    ensures CString(p + ['\0'] + rest) == CString(p)
  {
    if p != [] {
      assert (p + ['\0'] + rest)[0] == p[0];
      assert (p + ['\0'] + rest)[1..] == p[1..] + ['\0'] + rest;
      CStringIgnoresAfterNul(p[1..], rest);
    } else {
      assert (p + ['\0'] + rest)[0] == '\0';
    }
  }

  /** The string the caller sees in the buffer after a line is framed is the C string of
      the received line through its line feed, whatever stale bytes follow the terminator
      and whether or not a NUL byte arrived inside the line. */
  lemma SeenLine(bs: seq<char>, stale: seq<char>)
    requires HasLf(bs)
    ensures CString(Line(bs) + stale) == CString(bs[..LfIndex(bs) + 1])
  {
    var p := bs[..LfIndex(bs) + 1];
    assert Line(bs) + stale == p + ['\0'] + stale;
    CStringIgnoresAfterNul(p, stale);
  }

  /** The string the caller sees through the returned pointer is the whole received
      line through its line feed exactly when no NUL byte arrived before the line feed;
      stale bytes after the terminator (left from longer earlier lines) are never seen. */
  lemma VisibleLine(bs: seq<char>, stale: seq<char>)
    requires HasLf(bs)
    ensures var p := bs[..LfIndex(bs) + 1];
      CString(Line(bs) + stale) == p <==> forall j :: 0 <= j < |p| ==> p[j] != '\0'
  {
    var p := bs[..LfIndex(bs) + 1];
    assert Line(bs) + stale == p + ['\0'] + stale;
    if forall j :: 0 <= j < |p| ==> p[j] != '\0' {
      CStringStopsAtNul(p, stale);
    }
  }

  /** The UART port together with the static buffer of `uart_read_line`. */
  class UartLineReader {
    /** The bytes (and empty reads) the UART will deliver from now on. */
    var source: seq<ReadResult>
    /** `static char line[255]`: one buffer, reused by every call. */
    const line: array<char>

    ghost predicate Valid()
      reads this
    {
      line.Length == LineCapacity
    }

    /** Static storage starts zero-filled. */
    constructor (input: seq<ReadResult>)
      ensures Valid() && fresh(line)
      ensures source == input
      ensures forall j :: 0 <= j < line.Length ==> line[j] == '\0'
    {
      source := input;
      line := new char[LineCapacity](_ => '\0');
    }

    /** uart_read_line: read byte by byte into `line` until a line feed has been stored,
        write a NUL after it and return the buffer. The line overwrites the start of the
        buffer; whatever an earlier, longer line left after it stays. */
    method ReadLine() returns (r: array<char>, ghost written: seq<int>)
      requires Valid()
      requires FitsLine(Received(source))
      modifies this, line
      ensures Valid() && r == line
      ensures var bs := Received(old(source)); var k := LfIndex(bs);
        k + 2 <= line.Length &&
        (forall j :: 0 <= j <= k ==> line[j] == bs[j]) && line[k + 1] == '\0' &&
        (forall j :: k + 2 <= j < line.Length ==> line[j] == old(line[j]))
      ensures var bs := Received(old(source));
        line[..] == Line(bs) + old(line[..])[LfIndex(bs) + 2..]
      ensures written == WrittenIndices(Received(old(source)))
      ensures source == old(source)[ReadsToLf(old(source))..]
    {
      ghost var src := source;
      ghost var bs := Received(src);
      ghost var k := LfIndex(bs);
      ghost var before := line[..];
      LfArrives(src);
      var ptr := 0;
      var i := 0;
      written := [];
      while true
        invariant 0 <= i < ReadsToLf(src) && source == src
        invariant ptr == |Received(src[..i])| && ptr <= k
        invariant |written| == ptr && forall j :: 0 <= j < ptr ==> written[j] == j
        invariant forall j :: 0 <= j < ptr ==> line[j] == bs[j]
        invariant forall j :: ptr <= j < line.Length ==> line[j] == before[j]
        decreases ReadsToLf(src) - i
      {
        ReadStep(src, i);
        if source[i].Byte? {
          line[ptr] := source[i].b;
          written := written + [ptr];
          if line[ptr] == '\n' {
            ptr := ptr + 1;
            line[ptr] := '\0';
            written := written + [ptr];
            source := source[i + 1..];
            OverlaidLine(bs, before, line);
            WrittenInOrder(bs, written);
            return line, written;
          }
          ptr := ptr + 1;
        }
        i := i + 1;
      }
    }
  }
}
