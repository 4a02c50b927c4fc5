/**
 * One turn of the `while(1)` loop of `uart_read_and_parse_task`: frame a line from the
 * UART, classify it with `minmea_sentence_id(line, false)` and route it through the
 * switch. The classifier and the parsers belong to the minmea library, which is not
 * part of this model: both are function parameters that see exactly the C string the
 * buffer holds.
 */
module ParseTask {
  import opened Framing
  import opened SentenceDispatch

  /** Reads one line into the reader's static buffer and dispatches it. `text` is the
      string `line` points to as minmea reads it (up to the first NUL). */
  method ParseOnce(reader: UartLineReader, classify: seq<char> -> SentenceKind,
                   parse: (SentenceKind, seq<char>) -> bool)
    returns (o: Outcome, text: seq<char>)
    requires reader.Valid() && FitsLine(Received(reader.source))
    modifies reader, reader.line
    ensures reader.Valid()
    ensures var bs := Received(old(reader.source));
      reader.line[..] == Line(bs) + old(reader.line[..])[LfIndex(bs) + 2..]
    ensures text == CString(reader.line[..])
    ensures var bs := Received(old(reader.source)); text == CString(bs[..LfIndex(bs) + 1])
    ensures o == Dispatch(classify(text), parse(classify(text), text))
    ensures var bs := Received(old(reader.source)); var p := bs[..LfIndex(bs) + 1];
      (forall j :: 0 <= j < |p| ==> p[j] != '\0') <==> text == p
    ensures reader.source == old(reader.source)[ReadsToLf(old(reader.source))..]
  {
    ghost var bs := Received(reader.source);
    ghost var before := reader.line[..];
    ghost var written;
    var line;
    line, written := reader.ReadLine();
    ghost var stale := before[LfIndex(bs) + 2..];
    VisibleLine(bs, stale);
    SeenLine(bs, stale);
    text := CString(line[..]);
    var kind := classify(text);
    if HasParser(kind) {
      var parsed := parse(kind, text);
      o := Dispatch(kind, parsed);
    } else {
      NoParserNoDependence(kind);
      o := Dispatch(kind, false);
    }
  }
}
