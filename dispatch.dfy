/**
 * Routing of one NMEA sentence in `uart_read_and_parse_task`: the `switch` over the
 * kind `minmea_sentence_id` reports, one branch per kind. The minmea parsers are not
 * part of this model; a parser's boolean result is an input here, and every log line
 * is reduced to the outcome it reports.
 */
module SentenceDispatch {

  /** `enum minmea_sentence_id` as far as the switch distinguishes it. */
  datatype SentenceKind = Rmc | Zda | Gga | Vtg | Gsv | Gst | Gll | Gsa | Unknown | Invalid

  /** What one pass through the switch reports.
      Parsed: the parser succeeded and the decoded fields were logged; `satellites` are
      the indices of the `frame.sats[]` entries logged (GSV only).
      NotParsed: "$xx<kind> sentence was not parsed" / "is not parsed".
      TagOnly: only the tag "$xx<kind>" is logged.
      NotValid: "$xxxxx sentence is not valid". */
  datatype Outcome =
    | Parsed(kind: SentenceKind, satellites: seq<nat>)
    | NotParsed(kind: SentenceKind)
    | TagOnly(kind: SentenceKind)
    | NotValid

  /** Kinds whose branch calls a `minmea_parse_*` function. */
  predicate HasParser(kind: SentenceKind)
  {
    kind == Rmc || kind == Zda || kind == Gga || kind == Vtg || kind == Gsv
  }

  /** Kinds whose branch only logs their tag. */
  predicate IsTagOnly(kind: SentenceKind)
  {
    kind == Gst || kind == Gll || kind == Gsa
  }

  /** Kinds reported as "not valid". */
  predicate IsNotValid(kind: SentenceKind)
  {
    kind == Unknown || kind == Invalid
  }

  /** Number of `frame.sats[]` entries the GSV branch logs: its loop runs `i = 0 .. 3`. */
  const SatelliteSlotsLogged: nat := 4

  /** The satellite slots a parsed GSV sentence logs, in the order it logs them. */
  function SatelliteSlots(): (s: seq<nat>)
    ensures |s| == SatelliteSlotsLogged
    ensures forall i :: 0 <= i < |s| ==> s[i] == i
  {
    seq(SatelliteSlotsLogged, i requires 0 <= i => i)
  }

  /** The `for (int i = 0; i < 4; i++)` loop of the GSV branch: the slot it logs on
      each turn, one per turn and none twice. */
  method LogSatelliteSlots() returns (logged: seq<nat>)
    ensures logged == SatelliteSlots()
  {
    logged := [];
    for i := 0 to SatelliteSlotsLogged
      invariant |logged| == i
      invariant forall j :: 0 <= j < i ==> logged[j] == j
    {
      logged := logged + [i];
    }
  }

  /** The switch: `parsed` is what the kind's parser returned; for kinds without a
      parser no parser runs and the flag plays no part. */
  function Dispatch(kind: SentenceKind, parsed: bool): (o: Outcome)
    ensures o.Parsed? <==> HasParser(kind) && parsed
    ensures o.NotParsed? <==> HasParser(kind) && !parsed
    ensures o.TagOnly? <==> IsTagOnly(kind)
    ensures o.NotValid? <==> IsNotValid(kind)
    ensures !o.NotValid? ==> o.kind == kind
    ensures o.Parsed? ==> o.satellites == if kind == Gsv then SatelliteSlots() else []
  {
    match kind
    case Rmc => if parsed then Parsed(Rmc, []) else NotParsed(Rmc)
    case Zda => if parsed then Parsed(Zda, []) else NotParsed(Zda)
    case Gga => if parsed then Parsed(Gga, []) else NotParsed(Gga)
    case Vtg => if parsed then Parsed(Vtg, []) else NotParsed(Vtg)
    case Gsv => if parsed then Parsed(Gsv, SatelliteSlots()) else NotParsed(Gsv)
    case Gst => TagOnly(Gst)
    case Gll => TagOnly(Gll)
    case Gsa => TagOnly(Gsa)
    case Unknown => NotValid
    case Invalid => NotValid
  }

  /** Every kind reaches exactly one branch: the three groups partition the kinds. */
  lemma ExactlyOneBranch(kind: SentenceKind)
    ensures HasParser(kind) || IsTagOnly(kind) || IsNotValid(kind)
    ensures !(HasParser(kind) && IsTagOnly(kind))
    ensures !(HasParser(kind) && IsNotValid(kind))
    ensures !(IsTagOnly(kind) && IsNotValid(kind))
  {
  }

  /** A kind without a parser gets the same outcome whatever a parser would have said:
      its branch calls none. */
  lemma NoParserNoDependence(kind: SentenceKind)
    requires !HasParser(kind)
    ensures Dispatch(kind, true) == Dispatch(kind, false)
  {
  }

  /** UNKNOWN and INVALID are reported identically. */
  lemma UnknownLikeInvalid(parsed: bool)
    ensures Dispatch(Unknown, parsed) == Dispatch(Invalid, parsed) == NotValid
  {
  }

  /** The outcome tells which kind and which parse result produced it, for every kind
      that is not reported "not valid" (the parse result only where a parser ran). */
  lemma OutcomeDeterminesInput(k1: SentenceKind, p1: bool, k2: SentenceKind, p2: bool)
    requires Dispatch(k1, p1) == Dispatch(k2, p2)
    ensures IsNotValid(k1) <==> IsNotValid(k2)
    ensures !IsNotValid(k1) ==> k1 == k2
    ensures HasParser(k1) ==> p1 == p2
  {
  }
}
