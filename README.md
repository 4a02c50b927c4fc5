# M5Stack GPS reader: line framing and sentence dispatch

This project models the two pieces of logic in the ESP32 firmware that reads NMEA 0183
sentences from an M5Stack GPS module over UART 2.

- **`uart_read_line`** reads the receiver's byte stream one byte at a time into a static
  255-character buffer. It stops after the first line feed, writes a NUL after it and
  returns the buffer. The model is the class `Framing.UartLineReader`:
  - `line` is the static buffer, an `array<char>` of length 255, shared by every call.
  - `source` is what the UART will deliver, a sequence of read results. Each result is
    one byte (`Byte`) or anything else `uart_read_bytes` can return (`Nothing`).
  - `ReadLine` keeps the C loop's shape. It writes the byte into `line[ptr]`, tests it
    for a line feed, and writes the NUL after it.
  - `ReadLine` is proved against specification functions on the received bytes:
    `Received`, `LfIndex`, `ReadsToLf`, `Line` (the new buffer contents) and
    `WrittenIndices` (a ghost record of every index it writes). `CString`, the string a
    C reader sees in the buffer, enters through `VisibleLine`, `SeenLine` and `ParseOnce`.
  - Bytes are modelled as Dafny `char`, which has more values than C's 8-bit `char`.
    Nothing is lost by this: the framer only compares bytes with `'\n'`, and the
    C string view only with NUL.
- **The `switch` in `uart_read_and_parse_task`** routes each line by the kind
  `minmea_sentence_id` reports. `SentenceDispatch.Dispatch` maps a kind and the
  parser's boolean result to the outcome the branch logs.
- **`ParseTask.ParseOnce`** joins the two pieces into one turn of the task's loop:
  - read a line;
  - hand minmea the C string in the buffer;
  - dispatch.

The code differs from a cleaned-up line framer in two ways, and the model follows the
code:
- **CR and LF are kept.** The returned line still ends in the CR LF of the NMEA
  sentence.
- **Nothing guards a long line.** There is no line-too-long error and no resynchronisation.
  A line whose line feed arrives later than the 254th stored byte makes the code write
  past the end of `line`. `ReadLine` therefore requires `FitsLine`: the first line feed
  is among the first 254 received bytes. `WritesInBoundsIff` proves that this condition
  is exactly the one under which every write stays inside the buffer.
  `OverflowWitness` shows a concrete stream that breaks it.

## Model

| member | source | states |
|---|---|---|
| `Framing.NothingReadsAreIgnored` | 011-m5stack-gps/main/main.c:90-104 | A read that does not deliver exactly one byte adds nothing to the bytes received, wherever it falls in the stream |
| `Framing.ReceivedAppend` | 011-m5stack-gps/main/main.c:88-105 | Successive reads deliver their bytes in order: the bytes of two runs of reads are the concatenation of each run's bytes |
| `Framing.LfIndex` | 011-m5stack-gps/main/main.c:97-98 | The reported position is inside the received bytes and holds a line feed, or equals their length when no line feed has arrived |
| `Framing.LfIndexIsFirst` | 011-m5stack-gps/main/main.c:97-101 | No byte before that position is a line feed, so the framer stops at the first one |
| `Framing.HasLfIff` | 011-m5stack-gps/main/main.c:97-101 | A line is complete exactly when some received byte is a line feed |
| `Framing.LfWithinIff` | 011-m5stack-gps/main/main.c:97-101 | A line feed among the first n bytes exists exactly when the first line feed is before n |
| `Framing.ReadsToLf` | 011-m5stack-gps/main/main.c:88-105 | The number of reads consumed is at most the reads available and ends with the read that delivered a line feed, or uses up every read |
| `Framing.ReadsBeforeLf` | 011-m5stack-gps/main/main.c:88-105 | No read the framer performs before its last one delivers a line feed: the loop has no other exit |
| `Framing.LfArrives` | 011-m5stack-gps/main/main.c:97-102 | Once a line feed has been received, the framer's last read is the one that delivered it |
| `Framing.NoLfReceived` | 011-m5stack-gps/main/main.c:90-104 | Reads that are not line feeds leave the line open |
| `Framing.LfIndexAppend` | 011-m5stack-gps/main/main.c:97-103 | Bytes that contain no line feed push the first line feed of what follows back by their length |
| `Framing.LfIndexCons` | 011-m5stack-gps/main/main.c:97-103 | A stored byte that is not a line feed moves the first line feed back by one |
| `Framing.LfIndexAfterRead` | 011-m5stack-gps/main/main.c:90-104 | A read that is not a line feed moves the first line feed back by the number of bytes it stored, one or none |
| `Framing.ReadSplit` | 011-m5stack-gps/main/main.c:88-105 | While the line feed has not been read, the reads so far deliver no line feed, so the first line feed lies in what the remaining reads deliver |
| `Framing.ReadOne` | 011-m5stack-gps/main/main.c:90-104 | Each read adds its own byte (or nothing) after the bytes of the reads before it |
| `Framing.ReadStep` | 011-m5stack-gps/main/main.c:90-104 | One turn of the loop: the read exists; a byte is stored at the next position and equals the next received byte; a non-byte read advances nothing; the read is the last one exactly when it is a line feed |
| `Framing.ReceivedPrefix` | 011-m5stack-gps/main/main.c:88-105 | The first i reads deliver a prefix of the bytes and the rest deliver the remainder |
| `Framing.ReadsDeliverLine` | 011-m5stack-gps/main/main.c:88-105 | The reads the framer consumes deliver exactly the bytes through the first line feed; nothing of the next sentence is taken from the UART |
| `Framing.LineContents` | 011-m5stack-gps/main/main.c:97-103 | The framed line copies every received byte before the line feed unchanged (CR included), keeps the line feed, adds a NUL, and has no earlier line feed |
| `Framing.WritesInBoundsIff` | 011-m5stack-gps/main/main.c:85-103 | Every index written (one per byte through the line feed, plus the NUL, the sequence `ReadLine` records) is inside `line[0..254]` exactly when a line feed is among the first 254 received bytes, which is `FitsLine` |
| `Framing.OverflowWitness` | 011-m5stack-gps/main/main.c:98-102 | For 254 non-LF bytes followed by a line feed, the precondition fails and the NUL is written at index 255, past the buffer |
| `Framing.CString` | 011-m5stack-gps/main/main.c:102 | The string seen through `char *line` is a NUL-free prefix of the buffer, ended by the first NUL when there is one |
| `Framing.CStringStopsAtNul` | 011-m5stack-gps/main/main.c:102 | A NUL-free text followed by a NUL reads back as that text, whatever comes after |
| `Framing.CStringIgnoresAfterNul` | 011-m5stack-gps/main/main.c:102 | Whatever follows a NUL is invisible to a C reader: text, NUL, anything reads as the text's own C string |
| `Framing.SeenLine` | 011-m5stack-gps/main/main.c:101-103 | For every stream, the string seen in the buffer after framing is the C string of the received line through its line feed, whatever stale bytes follow and whether or not a NUL arrived inside the line |
| `Framing.VisibleLine` | 011-m5stack-gps/main/main.c:101-103 | The string the caller sees is the received line through its line feed exactly when no NUL byte arrived before the line feed; stale bytes after the terminator are never visible |
| `Framing.UartLineReader.constructor` | 011-m5stack-gps/main/main.c:85 | The static buffer has 255 characters, zero-filled before the first call |
| `Framing.UartLineReader.ReadLine` | 011-m5stack-gps/main/main.c:84-106 | Returns the same static buffer. It holds every received byte through the first line feed at `line[0..k]` and a NUL at `line[k+1]`; every later cell keeps the previous call's content, so the whole buffer is `Line` of the received bytes followed by the old tail. The indices it writes, in order, are exactly `WrittenIndices` (0 through k+1). Exactly the reads through the line feed are consumed. Every array access is in bounds under `FitsLine` |
| `Framing.OverlaidLine` | 011-m5stack-gps/main/main.c:97-103 | A buffer holding the framed line on its first cells and its earlier content on the rest is `Line` followed by the earlier tail |
| `Framing.WrittenInOrder` | 011-m5stack-gps/main/main.c:98-102 | Writing positions 0, 1, … once each through the NUL after the line feed is exactly `WrittenIndices` |
| `SentenceDispatch.SatelliteSlots` | 011-m5stack-gps/main/main.c:204-212 | A parsed GSV logs exactly 4 satellite slots, slots 0 to 3 in order |
| `SentenceDispatch.LogSatelliteSlots` | 011-m5stack-gps/main/main.c:204-212 | The `for` loop logs slot i on turn i, which gives exactly the slots above |
| `SentenceDispatch.Dispatch` | 011-m5stack-gps/main/main.c:128-240 | Parsed exactly when the kind has a parser (RMC, ZDA, GGA, VTG, GSV) and it succeeded. Not parsed exactly when it has one and it failed. Tag only exactly for GST, GLL and GSA. Not valid exactly for UNKNOWN and INVALID. The kind is reported, and a parsed GSV carries its 4 satellite slots |
| `SentenceDispatch.ExactlyOneBranch` | 011-m5stack-gps/main/main.c:128-239 | Every kind falls in exactly one of the three groups: parser, tag only, not valid |
| `SentenceDispatch.NoParserNoDependence` | 011-m5stack-gps/main/main.c:218-239 | GST, GLL, GSA, UNKNOWN and INVALID get the same outcome whatever a parser would have returned: their branches call none |
| `SentenceDispatch.UnknownLikeInvalid` | 011-m5stack-gps/main/main.c:233-239 | UNKNOWN and INVALID are reported identically, as not valid |
| `SentenceDispatch.OutcomeDeterminesInput` | 011-m5stack-gps/main/main.c:128-240 | Two inputs with the same outcome are both "not valid" or have the same kind, and, where a parser ran, the same parse result |
| `ParseTask.ParseOnce` | 011-m5stack-gps/main/main.c:119-240 | One turn of the task loop. The buffer afterwards is `Line` of the received bytes followed by the old tail. minmea is handed the C string of the received line through its LF: the whole line when it has no NUL, else the part before the first NUL. The outcome is `Dispatch` of the kind and of the parser's result on that string, and the reader consumes exactly that line |

## Left out

- `uart_init` (main.c:46-82) configures the ESP-IDF UART driver and pins. It is foreign I/O setup.
- `uart_read_bytes` is modelled only by its result, one byte or none. The model does not capture its blocking with `portMAX_DELAY`, its timing, or driver errors beyond "no byte". A stream with no line feed among the first 254 bytes is excluded by `ReadLine`'s precondition, so the model also does not cover the C loop waiting forever on a stream that never sends a line feed.
- The minmea library is not part of this model. It provides `minmea_sentence_id`, checksums, the `minmea_parse_*` functions and their field decoding. The classifier and the parsers are uninterpreted function parameters of `ParseOnce`. The `strict` flag is `false` at the call site and is not modelled.
- `minmea_tocoord` and `minmea_tofloat` are not modelled. They are floating-point conversions inside that library.
- `ESP_LOGI`/`ESP_LOGD` formatting is reduced to the outcome each branch reports. The decoded field values a parsed sentence logs are not modelled. This includes `frame.sats[i]` contents: only which slots are logged is modelled.
- The FreeRTOS tasks are not modelled: `uart_read_task`, `xTaskCreatePinnedToCore`, `vTaskDelete` and `app_main`. The `while(1)` loop of `uart_read_and_parse_task` is modelled by one turn, `ParseOnce`. Further turns are further calls on the same reader, which carries the rest of the stream and the shared buffer.
- `ReadLine` does not model what the C code does when the precondition fails, which is writing past the end of `line` into adjacent memory. Dafny cannot express that behaviour; `WritesInBoundsIff` and `OverflowWitness` characterise when it happens.
