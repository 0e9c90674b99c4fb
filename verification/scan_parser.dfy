/** The line-oriented state machine of `fetch_wifi_stats`: it turns the
    decoded output of `iw dev wlan0 scan` into one `WifiBssid` per access-point
    block, in the order the blocks appear. */
module ScanParser {
  import opened Wrappers
  import opened Text
  import opened Numeric
  import opened Ssid
  import opened Patterns

  /** Physical-layer generation, from the capability banners of a block. */
  datatype PhyType = UHR | EHT | HE | VHT | HT | Legacy

  /** One access point as the scan reports it.  The integer fields keep the
      widths of the source's `u64`, `u8`, `u16` and `i32`. */
  datatype WifiBssid = WifiBssid(
    ssid: Option<string>,
    bssid: string,
    age: Option<u64>,
    channel: Option<u8>,
    frequency: u16,
    phy: PhyType,
    rssi: i32)

  /** The record a header line opens: everything but the address defaulted. */
  function Fresh(mac: string): (r: WifiBssid)
    ensures r.bssid == mac && r.ssid.None? && r.age.None? && r.channel.None?
    ensures r.frequency == 0 && r.phy == Legacy && r.rssi == 0
  {
    WifiBssid(None, mac, None, None, 0, Legacy, 0)
  }

  /** The PHY banner test applied to a line that matched no field. */
  function BannerPhy(line: string): (p: PhyType)
    ensures p == UHR <==> HasBanner(line, UhrBanner)
    ensures p == EHT <==> HasBanner(line, EhtBanner)
    ensures p == HE <==> HasBanner(line, HeBanner)
    ensures p == VHT <==> HasBanner(line, VhtBanner)
    ensures p == HT <==> HasBanner(line, HtBanner)
    ensures p == Legacy <==>
      && !HasBanner(line, UhrBanner) && !HasBanner(line, EhtBanner) && !HasBanner(line, HeBanner)
      && !HasBanner(line, VhtBanner) && !HasBanner(line, HtBanner)
  {
    BannersExclusive(line);
    if HasBanner(line, UhrBanner) then UHR
    else if HasBanner(line, EhtBanner) then EHT
    else if HasBanner(line, HeBanner) then HE
    else if HasBanner(line, VhtBanner) then VHT
    else if HasBanner(line, HtBanner) then HT
    else Legacy
  }

  /** What a non-header line inside a block does to the record. */
  datatype LineKind =
    | SsidLine(raw: string)
    | FreqLine(digits: string)
    | ChannelLine(digits: string)
    | SignalLine(reading: Decimal)
    | LastSeenLine(digits: string)
    | OtherLine(phy: PhyType)
  {
    predicate Valid() {
      match this
      case SsidLine(_) => true
      case FreqLine(d) => d != [] && AllDigits(d)
      case ChannelLine(d) => d != [] && AllDigits(d)
      case SignalLine(x) => x.Valid()
      case LastSeenLine(d) => d != [] && AllDigits(d)
      case OtherLine(_) => true
    }
  }

  function MatchFreq(line: string): Option<string> {
    MatchIndentedDigits(line, FreqLabel)
  }

  function MatchChannel(line: string): Option<string> {
    MatchIndentedDigits(line, ChannelLabel)
  }

  /** The five field patterns tried in the order SSID, frequency, primary
      channel, signal, last seen; the first that matches decides the line,
      and a line none matches goes to the banner test.  Since the anchored
      patterns exclude one another, the order only matters for the signal
      pattern, which wins over "last seen" and loses to the other three. */
  function Classify(line: string): (k: LineKind)
    ensures k.Valid()
    ensures k.SsidLine? <==> MatchSsidField(line).Some?
    ensures k.FreqLine? <==> MatchFreq(line).Some?
    ensures k.ChannelLine? <==> MatchChannel(line).Some?
    ensures k.SignalLine? <==>
      MatchSignal(line).Some? && MatchSsidField(line).None? && MatchFreq(line).None? && MatchChannel(line).None?
    ensures k.LastSeenLine? <==> MatchLastSeen(line).Some? && MatchSignal(line).None?
    ensures k.OtherLine? <==>
      && MatchSsidField(line).None? && MatchFreq(line).None? && MatchChannel(line).None?
      && MatchSignal(line).None? && MatchLastSeen(line).None?
    ensures k.SsidLine? ==> Some(k.raw) == MatchSsidField(line)
    ensures k.FreqLine? ==> Some(k.digits) == MatchFreq(line)
    ensures k.ChannelLine? ==> Some(k.digits) == MatchChannel(line)
    ensures k.SignalLine? ==> k.reading == MatchSignal(line).value.reading
    ensures k.LastSeenLine? ==> Some(k.digits) == MatchLastSeen(line)
    ensures k.OtherLine? ==> k.phy == BannerPhy(line)
  {
    AnchoredFieldsExclusive(line);
    var signal := MatchSignal(line);
    assert signal.Some? ==> signal.value.reading.Valid() by {
      if signal.Some? {
        assert SignalReading(line[signal.value.start + |SignalLabel|..]) == Some(signal.value.reading);
      }
    }
    match MatchSsidField(line)
    case Some(raw) => SsidLine(raw)
    case None =>
      match MatchFreq(line)
      case Some(d) => FreqLine(d)
      case None =>
        match MatchChannel(line)
        case Some(d) => ChannelLine(d)
        case None =>
          match signal
          case Some(m) => SignalLine(m.reading)
          case None =>
            match MatchLastSeen(line)
            case Some(d) => LastSeenLine(d)
            case None => OtherLine(BannerPhy(line))
  }

  /** The field of the record a kind of line writes. */
  datatype FieldTag = SsidTag | FreqTag | ChannelTag | SignalTag | LastSeenTag | PhyTag

  function TagOf(k: LineKind): FieldTag {
    match k
    case SsidLine(_) => SsidTag
    case FreqLine(_) => FreqTag
    case ChannelLine(_) => ChannelTag
    case SignalLine(_) => SignalTag
    case LastSeenLine(_) => LastSeenTag
    case OtherLine(_) => PhyTag
  }

  /** `a` and `b` agree on the address and on every field but `t`'s. */
  predicate SameExcept(a: WifiBssid, b: WifiBssid, t: FieldTag) {
    && a.bssid == b.bssid
    && (t != SsidTag ==> a.ssid == b.ssid)
    && (t != FreqTag ==> a.frequency == b.frequency)
    && (t != ChannelTag ==> a.channel == b.channel)
    && (t != SignalTag ==> a.rssi == b.rssi)
    && (t != LastSeenTag ==> a.age == b.age)
    && (t != PhyTag ==> a.phy == b.phy)
  }

  /** One in-block line applied to the record under construction: exactly
      the field of the line's kind is written, and an SSID that `parse_ssid`
      rejects ends the scan. */
  function Apply(rec: WifiBssid, k: LineKind): (r: Result<WifiBssid, SsidAbort>)
    requires k.Valid()
    ensures r.Failure? <==> k.SsidLine? && ParseSsid(k.raw).Failure?
    ensures r.Failure? ==> r.error == ParseSsid(k.raw).error
    ensures r.Success? ==> SameExcept(rec, r.value, TagOf(k))
    ensures r.Success? && k.SsidLine? ==> ParseSsid(k.raw) == Success(r.value.ssid)
    ensures r.Success? && k.FreqLine? ==> r.value.frequency == Frequency(k.digits)
    ensures r.Success? && k.ChannelLine? ==> r.value.channel == Channel(k.digits)
    ensures r.Success? && k.SignalLine? ==> r.value.rssi == TruncateToI32(k.reading)
    ensures r.Success? && k.LastSeenLine? ==> r.value.age == Some(AgeMs(k.digits))
    ensures r.Success? && k.OtherLine? ==> r.value.phy == k.phy
  {
    match k
    case SsidLine(raw) =>
      var ssid :- ParseSsid(raw);
      Success(rec.(ssid := ssid))
    case FreqLine(d) => Success(rec.(frequency := Frequency(d)))
    case ChannelLine(d) => Success(rec.(channel := Channel(d)))
    case SignalLine(x) => Success(rec.(rssi := TruncateToI32(x)))
    case LastSeenLine(d) => Success(rec.(age := Some(AgeMs(d))))
    case OtherLine(p) => Success(rec.(phy := p))
  }

  /** The loop state: the records already pushed, and the one being built. */
  datatype ScanState = ScanState(done: seq<WifiBssid>, current: Option<WifiBssid>)

  const Start: ScanState := ScanState([], None)

  /** The records so far, the open one (if any) pushed last. */
  function Flush(st: ScanState): seq<WifiBssid> {
    if st.current.Some? then st.done + [st.current.value] else st.done
  }

  /** One iteration of the loop over lines.  A header pushes the open record
      and opens a fresh one; any other line goes to the open record, if there
      is one, and the iteration panics exactly on a rejected SSID there. */
  function Step(st: ScanState, line: string): (r: Result<ScanState, SsidAbort>)
    ensures r.Failure? <==>
      && MatchHeader(line).None? && st.current.Some?
      && Classify(line).SsidLine? && ParseSsid(Classify(line).raw).Failure?
    ensures r.Success? ==> st.done <= r.value.done
    ensures r.Success? && MatchHeader(line).Some? ==>
      r.value.done == Flush(st) && r.value.current == Some(Fresh(MatchHeader(line).value))
    ensures r.Success? && MatchHeader(line).None? ==>
      && r.value.done == st.done
      && r.value.current.Some? == st.current.Some?
      && (st.current.Some? ==> r.value.current.value.bssid == st.current.value.bssid)
  {
    match MatchHeader(line)
    case Some(mac) => Success(ScanState(Flush(st), Some(Fresh(mac))))
    case None =>
      if st.current.None? then Success(st)
      else
        var rec :- Apply(st.current.value, Classify(line));
        Success(st.(current := Some(rec)))
  }

  /** The addresses captured from the header lines, in order. */
  function Headers(lines: seq<string>): (hs: seq<string>)
    ensures forall i :: 0 <= i < |hs| ==> IsMacText(hs[i])
  {
    if lines == [] then []
    else
      (match MatchHeader(lines[0]) case Some(mac) => [mac] case None => []) + Headers(lines[1..])
  }

  function BssidsOf(records: seq<WifiBssid>): seq<string> {
    seq(|records|, i requires 0 <= i < |records| => records[i].bssid)
  }

  /** The loop from state `st` over the remaining lines, then the final
      flush.  Every header line adds one record, carrying its address. */
  function Run(st: ScanState, lines: seq<string>): (r: Result<seq<WifiBssid>, SsidAbort>)
    ensures r.Success? ==> BssidsOf(r.value) == BssidsOf(Flush(st)) + Headers(lines)
    decreases |lines|
  {
    if lines == [] then Success(Flush(st))
    else
      var next :- Step(st, lines[0]);
      assert BssidsOf(Flush(next)) ==
        BssidsOf(Flush(st)) + (match MatchHeader(lines[0]) case Some(mac) => [mac] case None => []);
      Run(next, lines[1..])
  }

  /** The parse of `fetch_wifi_stats` over already split lines.  On success
      there is one record per header line, in header order, each carrying the
      17 characters its header captured. */
  function ParseLines(lines: seq<string>): (r: Result<seq<WifiBssid>, SsidAbort>)
    ensures r.Success? ==>
      && |r.value| == |Headers(lines)|
      && forall i :: 0 <= i < |r.value| ==> r.value[i].bssid == Headers(lines)[i]
  {
    var r := Run(Start, lines);
    if r.Success? then
      assert BssidsOf(r.value) == Headers(lines);
      assert forall i :: 0 <= i < |r.value| ==> r.value[i].bssid == BssidsOf(r.value)[i];
      r
    else r
  }

  /** The whole scan output: `stdout.lines()` fed to the loop. */
  function ParseScan(stdout: string): (r: Result<seq<WifiBssid>, SsidAbort>)
    ensures r.Success? ==>
      && |r.value| == |Headers(Lines(stdout))|
      && forall i :: 0 <= i < |r.value| ==> r.value[i].bssid == Headers(Lines(stdout))[i]
  {
    ParseLines(Lines(stdout))
  }

  /** Output written one "\n"-terminated line at a time is parsed as those
      lines. */
  lemma ParseScanOfLines(lines: seq<string>)
    requires forall i :: 0 <= i < |lines| ==> IsLine(lines[i])
    ensures ParseScan(JoinLines(lines, "\n")) == ParseLines(lines)
  {
    LinesOfJoinedLfLines(lines);
  }

  /** The same with "\r\n" terminators, which `lines()` also strips. */
  lemma ParseScanOfCrLfLines(lines: seq<string>)
    requires forall i :: 0 <= i < |lines| ==> '\n' !in lines[i]
    ensures ParseScan(JoinLines(lines, "\r\n")) == ParseLines(lines)
  {
    LinesOfJoinedCrLf(lines);
  }
}
