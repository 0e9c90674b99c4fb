/** An independent, block-by-block reading of the scan parser, and the
    theorems that tie the line loop of `ScanParser` to it: the text is cut
    into access-point blocks (a header line and the lines up to the next
    header), each block is folded into one record on its own, and a record's
    every field is decided by the last line of its kind in the block. */
module ScanBlocks {
  import opened Wrappers
  import opened Text
  import opened Numeric
  import opened Ssid
  import opened Patterns
  import opened ScanParser

  predicate IsHeader(line: string) {
    MatchHeader(line).Some?
  }

  /** Number of leading non-header lines. */
  function BodyLength(lines: seq<string>): (n: nat)
    ensures n <= |lines|
    ensures forall i :: 0 <= i < n ==> !IsHeader(lines[i])
    ensures n == |lines| || IsHeader(lines[n])
  {
    if lines == [] || IsHeader(lines[0]) then 0 else 1 + BodyLength(lines[1..])
  }

  /** Header lines before index `n` contribute nothing to `Headers`. */
  lemma {:induction false} HeadersSkip(lines: seq<string>, n: nat)
    requires n <= |lines|
    requires forall i :: 0 <= i < n ==> !IsHeader(lines[i])
    ensures Headers(lines) == Headers(lines[n..])
    decreases n
  {
    if n > 0 {
      assert lines[1..][n - 1..] == lines[n..];
      HeadersSkip(lines[1..], n - 1);
    }
  }

  /** A header line, the address it captured, and the lines up to the next
      header. */
  datatype Block = Block(header: string, bssid: string, body: seq<string>)

  /** The access-point blocks of a scan.  Lines before the first header
      belong to no block. */
  function SplitBlocks(lines: seq<string>): (blocks: seq<Block>)
    ensures |blocks| == |Headers(lines)|
    ensures forall i :: 0 <= i < |blocks| ==> blocks[i].bssid == Headers(lines)[i]
    ensures forall i, j :: 0 <= i < |blocks| && 0 <= j < |blocks[i].body| ==> !IsHeader(blocks[i].body[j])
    decreases |lines|
  {
    if lines == [] then []
    else
      match MatchHeader(lines[0])
      case None =>
        assert Headers(lines) == Headers(lines[1..]);
        SplitBlocks(lines[1..])
      case Some(mac) =>
        var n := BodyLength(lines[1..]);
        var after := lines[1..][n..];
        HeadersSkip(lines[1..], n);
        assert Headers(lines) == [mac] + Headers(after);
        var b := Block(lines[0], mac, lines[1..][..n]);
        ConsBlock(b, SplitBlocks(after), mac, Headers(after));
        [b] + SplitBlocks(after)
  }

  /** The facts `SplitBlocks` needs about `[b] + rest`. */
  lemma ConsBlock(b: Block, rest: seq<Block>, mac: string, macs: seq<string>)
    requires b.bssid == mac && |rest| == |macs|
    requires forall i :: 0 <= i < |rest| ==> rest[i].bssid == macs[i]
    requires forall j :: 0 <= j < |b.body| ==> !IsHeader(b.body[j])
    requires forall i, j :: 0 <= i < |rest| && 0 <= j < |rest[i].body| ==> !IsHeader(rest[i].body[j])
    ensures |[b] + rest| == |[mac] + macs|
    ensures forall i :: 0 <= i < |[b] + rest| ==> ([b] + rest)[i].bssid == ([mac] + macs)[i]
    ensures forall i, j :: 0 <= i < |[b] + rest| && 0 <= j < |([b] + rest)[i].body| ==> !IsHeader(([b] + rest)[i].body[j])
  {
  }

  /** The blocks written back: each header line followed by its body. */
  function Joined(blocks: seq<Block>): seq<string> {
    if blocks == [] then [] else [blocks[0].header] + blocks[0].body + Joined(blocks[1..])
  }

  /** Cutting loses and reorders nothing: the lines before the first header,
      followed by the blocks written back, are the input. */
  lemma {:induction false} SplitBlocksJoined(lines: seq<string>)
    ensures lines == lines[..BodyLength(lines)] + Joined(SplitBlocks(lines))
    decreases |lines|
  {
    if lines != [] {
      var rest := lines[1..];
      assert lines == [lines[0]] + rest;
      if MatchHeader(lines[0]).None? {
        SplitBlocksOfPlain(lines);
        SplitBlocksJoined(rest);
        PrependLine(lines[0], rest, BodyLength(rest), Joined(SplitBlocks(rest)));
      } else {
        var n := BodyLength(rest);
        var after := rest[n..];
        SplitBlocksOfHeader(lines);
        SplitBlocksJoined(after);
        assert after[..0] == [] && lines[..0] == [];
        JoinedCons(Block(lines[0], MatchHeader(lines[0]).value, rest[..n]), SplitBlocks(after));
        PrependBlock(lines[0], rest, n, Joined(SplitBlocks(after)));
      }
    }
  }

  /** Each block's header line captures the block's address. */
  lemma {:induction false} SplitBlocksHeaders(lines: seq<string>)
    ensures var blocks := SplitBlocks(lines);
      forall i :: 0 <= i < |blocks| ==> MatchHeader(blocks[i].header) == Some(blocks[i].bssid)
    decreases |lines|
  {
    if lines != [] {
      if MatchHeader(lines[0]).None? {
        SplitBlocksOfPlain(lines);
        SplitBlocksHeaders(lines[1..]);
      } else {
        SplitBlocksOfHeader(lines);
        SplitBlocksHeaders(lines[1..][BodyLength(lines[1..])..]);
      }
    }
  }

  lemma SplitBlocksOfPlain(lines: seq<string>)
    requires lines != [] && MatchHeader(lines[0]).None?
    ensures SplitBlocks(lines) == SplitBlocks(lines[1..])
    ensures BodyLength(lines) == 1 + BodyLength(lines[1..])
  {
  }

  lemma SplitBlocksOfHeader(lines: seq<string>)
    requires lines != [] && MatchHeader(lines[0]).Some?
    ensures var n := BodyLength(lines[1..]);
      && SplitBlocks(lines) == [Block(lines[0], MatchHeader(lines[0]).value, lines[1..][..n])] + SplitBlocks(lines[1..][n..])
      && BodyLength(lines) == 0
      && BodyLength(lines[1..][n..]) == 0
  {
    var n := BodyLength(lines[1..]);
    var after := lines[1..][n..];
    assert after == [] || IsHeader(after[0]);
  }

  lemma JoinedCons(b: Block, rest: seq<Block>)
    ensures Joined([b] + rest) == [b.header] + b.body + Joined(rest)
  {
    assert ([b] + rest)[1..] == rest;
  }

  /** A line in front of a preamble joins the preamble. */
  lemma PrependLine<T>(x: T, s: seq<T>, m: nat, j: seq<T>)
    requires m <= |s| && s == s[..m] + j
    ensures [x] + s == ([x] + s)[..m + 1] + j
  {
    assert ([x] + s)[..m + 1] == [x] + s[..m];
  }

  /** A header line in front of its body and the rest. */
  lemma PrependBlock<T>(x: T, s: seq<T>, n: nat, j: seq<T>)
    requires n <= |s| && s[n..] == j
    ensures [x] + s == [x] + s[..n] + j
  {
    assert s == s[..n] + s[n..];
  }

  /** The kind of each line of a block, in order. */
  function KindsOf(body: seq<string>): (ks: seq<LineKind>)
    ensures |ks| == |body|
    ensures forall i :: 0 <= i < |body| ==> ks[i] == Classify(body[i]) && ks[i].Valid()
  {
    seq(|body|, i requires 0 <= i < |body| => Classify(body[i]))
  }

  predicate AllValid(ks: seq<LineKind>) {
    forall i :: 0 <= i < |ks| ==> ks[i].Valid()
  }

  /** Line kinds applied to the record one after the other; the first
      rejected SSID ends the fold. */
  function Fold(rec: WifiBssid, ks: seq<LineKind>): (r: Result<WifiBssid, SsidAbort>)
    requires AllValid(ks)
    ensures r.Success? ==> r.value.bssid == rec.bssid
    decreases |ks|
  {
    if ks == [] then Success(rec)
    else
      var next :- Apply(rec, ks[0]);
      Fold(next, ks[1..])
  }

  /** The lines of one block folded, in order, into the record. */
  function BuildRecord(rec: WifiBssid, body: seq<string>): (r: Result<WifiBssid, SsidAbort>)
    ensures r.Success? ==> r.value.bssid == rec.bssid
    decreases |body|
  {
    if body == [] then Success(rec)
    else
      var next :- Apply(rec, Classify(body[0]));
      BuildRecord(next, body[1..])
  }

  /** Folding the lines is folding their kinds. */
  lemma {:induction false} BuildRecordIsFold(rec: WifiBssid, body: seq<string>)
    ensures BuildRecord(rec, body) == Fold(rec, KindsOf(body))
    decreases |body|
  {
    if body != [] {
      assert KindsOf(body)[1..] == KindsOf(body[1..]);
      match Apply(rec, Classify(body[0]))
      case Failure(e) =>
      case Success(next) =>
        BuildRecordIsFold(next, body[1..]);
    }
  }

  function BlockRecord(b: Block): Result<WifiBssid, SsidAbort> {
    BuildRecord(Fresh(b.bssid), b.body)
  }

  /** Every block's record, in block order; the first block that fails
      decides the failure. */
  function BuildAll(blocks: seq<Block>): Result<seq<WifiBssid>, SsidAbort> {
    Collect(Map(BlockRecord, blocks))
  }

  /** Record `i` of a successful `BuildAll` is block `i`'s record, and
      `BuildAll` fails exactly when some block does, with the error of the
      first block that fails. */
  lemma BuildAllBlockwise(blocks: seq<Block>)
    ensures var r := BuildAll(blocks);
      r.Success? ==> |r.value| == |blocks| && forall i :: 0 <= i < |blocks| ==> BlockRecord(blocks[i]) == Success(r.value[i])
    ensures BuildAll(blocks).Failure? <==> exists i :: 0 <= i < |blocks| && BlockRecord(blocks[i]).Failure?
    ensures var r := BuildAll(blocks);
      r.Failure? ==> exists i ::
        && 0 <= i < |blocks|
        && BlockRecord(blocks[i]) == Failure(r.error)
        && forall j :: 0 <= j < i ==> BlockRecord(blocks[j]).Success?
  {
    CollectSpec(Map(BlockRecord, blocks));
  }

  function Prepend(records: seq<WifiBssid>, r: Result<seq<WifiBssid>, SsidAbort>): Result<seq<WifiBssid>, SsidAbort> {
    if r.Success? then Success(records + r.value) else r
  }

  /** What the loop yields from a state with no open record. */
  lemma {:induction false} RunIdle(done: seq<WifiBssid>, lines: seq<string>)
    ensures Run(ScanState(done, None), lines) == Prepend(done, BuildAll(SplitBlocks(lines)))
    decreases |lines|, 0
  {
    if lines == [] {
      assert done + [] == done;
    } else {
      match MatchHeader(lines[0])
      case None =>
        RunIdle(done, lines[1..]);
      case Some(mac) =>
        var n := BodyLength(lines[1..]);
        var b := Block(lines[0], mac, lines[1..][..n]);
        var after := lines[1..][n..];
        RunOpen(done, Fresh(mac), lines[1..]);
        assert SplitBlocks(lines) == [b] + SplitBlocks(after);
        BuildAllCons(b, SplitBlocks(after));
        if BlockRecord(b).Success? {
          PrependTwice(done, BlockRecord(b).value, BuildAll(SplitBlocks(after)));
        }
    }
  }

  lemma PrependTwice(done: seq<WifiBssid>, r: WifiBssid, rest: Result<seq<WifiBssid>, SsidAbort>)
    ensures Prepend(done, Prepend([r], rest)) == Prepend(done + [r], rest)
  {
    if rest.Success? {
      assert done + ([r] + rest.value) == (done + [r]) + rest.value;
    }
  }

  lemma BuildAllCons(b: Block, blocks: seq<Block>)
    ensures BuildAll([b] + blocks) ==
      if BlockRecord(b).Failure? then Failure(BlockRecord(b).error)
      else Prepend([BlockRecord(b).value], BuildAll(blocks))
  {
    MapCons(BlockRecord, b, blocks);
    CollectCons(BlockRecord(b), Map(BlockRecord, blocks));
  }


  /** What the loop yields while a record is open: the open record absorbs
      the lines up to the next header, then the rest proceeds as from an
      idle state. */
  lemma {:induction false} RunOpen(done: seq<WifiBssid>, cur: WifiBssid, lines: seq<string>)
    ensures var n := BodyLength(lines);
      var built := BuildRecord(cur, lines[..n]);
      Run(ScanState(done, Some(cur)), lines) ==
        if built.Failure? then Failure(built.error)
        else Prepend(done + [built.value], BuildAll(SplitBlocks(lines[n..])))
    decreases |lines|, 1
  {
    var n := BodyLength(lines);
    if lines == [] {
      assert lines[..n] == [];
      assert done + [cur] + [] == done + [cur];
    } else if IsHeader(lines[0]) {
      assert n == 0 && lines[..n] == [] && lines[n..] == lines;
      assert Step(ScanState(done, Some(cur)), lines[0]) == Step(ScanState(done + [cur], None), lines[0]);
      RunIdle(done + [cur], lines);
    } else {
      assert n == 1 + BodyLength(lines[1..]);
      assert lines[..n][0] == lines[0];
      assert lines[..n][1..] == lines[1..][..n - 1];
      assert lines[n..] == lines[1..][n - 1..];
      match Apply(cur, Classify(lines[0]))
      case Failure(e) =>
      case Success(next) =>
        RunOpen(done, next, lines[1..]);
    }
  }

  /** The line loop of `fetch_wifi_stats` computes exactly the blockwise
      reading. */
  lemma ParseLinesIsBlockwise(lines: seq<string>)
    ensures ParseLines(lines) == BuildAll(SplitBlocks(lines))
  {
    RunIdle([], lines);
    var r := BuildAll(SplitBlocks(lines));
    if r.Success? {
      assert [] + r.value == r.value;
    }
  }

  /** On success, record `i` is block `i` folded from a fresh record whose
      address is the `i`-th header's capture. */
  lemma ParseLinesRecords(lines: seq<string>)
    requires ParseLines(lines).Success?
    ensures var rs := ParseLines(lines).value;
      && |rs| == |Headers(lines)| == |SplitBlocks(lines)|
      && forall i :: 0 <= i < |rs| ==>
           BuildRecord(Fresh(Headers(lines)[i]), SplitBlocks(lines)[i].body) == Success(rs[i])
  {
    ParseLinesIsBlockwise(lines);
    BuildAllBlockwise(SplitBlocks(lines));
  }

  /** Lines with no header in front of the first block change nothing. */
  lemma {:induction false} PreambleIgnored(preamble: seq<string>, rest: seq<string>)
    requires forall i :: 0 <= i < |preamble| ==> !IsHeader(preamble[i])
    ensures ParseLines(preamble + rest) == ParseLines(rest)
  {
    SplitBlocksSkip(preamble, rest);
    ParseLinesIsBlockwise(preamble + rest);
    ParseLinesIsBlockwise(rest);
  }

  lemma {:induction false} SplitBlocksSkip(preamble: seq<string>, rest: seq<string>)
    requires forall i :: 0 <= i < |preamble| ==> !IsHeader(preamble[i])
    ensures SplitBlocks(preamble + rest) == SplitBlocks(rest)
    decreases |preamble|
  {
    if preamble != [] {
      assert (preamble + rest)[0] == preamble[0];
      assert (preamble + rest)[1..] == preamble[1..] + rest;
      SplitBlocksSkip(preamble[1..], rest);
    } else {
      assert preamble + rest == rest;
    }
  }

  // ---------------------------------------------------------------------
  // Inside one block

  /** Index of the last kind in `ks` that writes field `t`. */
  function LastOfKind(ks: seq<LineKind>, t: FieldTag): (r: Option<nat>)
    ensures r.Some? ==>
      && r.value < |ks|
      && TagOf(ks[r.value]) == t
      && forall j :: r.value < j < |ks| ==> TagOf(ks[j]) != t
    ensures r.None? ==> forall j :: 0 <= j < |ks| ==> TagOf(ks[j]) != t
    decreases |ks|
  {
    if ks == [] then None
    else if TagOf(ks[|ks| - 1]) == t then Some(|ks| - 1)
    else LastOfKind(ks[..|ks| - 1], t)
  }

  /** Folding one more kind is applying it to the folded record. */
  lemma {:induction false} FoldSnoc(rec: WifiBssid, ks: seq<LineKind>, k: LineKind)
    requires AllValid(ks) && k.Valid()
    ensures AllValid(ks + [k])
    ensures var built := Fold(rec, ks);
      Fold(rec, ks + [k]) == if built.Failure? then Failure(built.error) else Apply(built.value, k)
    decreases |ks|
  {
    if ks == [] {
      assert ks + [k] == [k];
    } else {
      TailOfAppend(ks, [k]);
      match Apply(rec, ks[0])
      case Failure(e) =>
      case Success(next) =>
        FoldSnoc(next, ks[1..], k);
    }
  }

  /** The value of one field of a record, whatever its type. */
  datatype FieldValue =
    | SsidValue(ssid: Option<string>)
    | FreqValue(mhz: u16)
    | ChannelValue(channel: Option<u8>)
    | RssiValue(dbm: i32)
    | AgeValue(ms: Option<u64>)
    | PhyValue(phy: PhyType)

  function Field(r: WifiBssid, t: FieldTag): FieldValue {
    match t
    case SsidTag => SsidValue(r.ssid)
    case FreqTag => FreqValue(r.frequency)
    case ChannelTag => ChannelValue(r.channel)
    case SignalTag => RssiValue(r.rssi)
    case LastSeenTag => AgeValue(r.age)
    case PhyTag => PhyValue(r.phy)
  }

  /** What a line of kind `k` writes into its field, or why it aborts. */
  function Written(k: LineKind): Result<FieldValue, SsidAbort>
    requires k.Valid()
  {
    match k
    case SsidLine(raw) => (var ssid :- ParseSsid(raw); Success(SsidValue(ssid)))
    case FreqLine(d) => Success(FreqValue(Frequency(d)))
    case ChannelLine(d) => Success(ChannelValue(Channel(d)))
    case SignalLine(x) => Success(RssiValue(TruncateToI32(x)))
    case LastSeenLine(d) => Success(AgeValue(Some(AgeMs(d))))
    case OtherLine(p) => Success(PhyValue(p))
  }

  /** One applied line writes its own field and keeps every other. */
  lemma ApplyField(rec: WifiBssid, k: LineKind, t: FieldTag)
    requires k.Valid() && Apply(rec, k).Success?
    ensures t == TagOf(k) ==> Written(k) == Success(Field(Apply(rec, k).value, t))
    ensures t != TagOf(k) ==> Field(Apply(rec, k).value, t) == Field(rec, t)
  {
  }

  /** After a fold, field `t` holds what the last kind writing it wrote, and
      its starting value when no such kind occurs. */
  lemma {:induction false} FoldField(rec: WifiBssid, ks: seq<LineKind>, t: FieldTag)
    requires AllValid(ks) && Fold(rec, ks).Success?
    ensures var last := LastOfKind(ks, t);
      if last.None? then Field(Fold(rec, ks).value, t) == Field(rec, t)
      else Written(ks[last.value]) == Success(Field(Fold(rec, ks).value, t))
    decreases |ks|
  {
    if ks != [] {
      var init := ks[..|ks| - 1];
      var k := ks[|ks| - 1];
      SplitLast(ks);
      FoldSnoc(rec, init, k);
      FoldField(rec, init, t);
      var before := Fold(rec, init).value;
      assert Fold(rec, ks) == Apply(before, k);
      ApplyField(before, k, t);
      LastOfKindSnoc(init, k, t);
    }
  }

  lemma LastOfKindSnoc(init: seq<LineKind>, k: LineKind, t: FieldTag)
    ensures LastOfKind(init + [k], t) == if TagOf(k) == t then Some(|init|) else LastOfKind(init, t)
    ensures var last := LastOfKind(init, t); last.Some? ==> (init + [k])[last.value] == init[last.value]
  {
    assert (init + [k])[..|init|] == init;
  }

  /** A line kind `parse_ssid` rejects. */
  predicate Rejects(k: LineKind) {
    k.SsidLine? && ParseSsid(k.raw).Failure?
  }

  /** A fold fails exactly when one of its kinds is an SSID that
      `parse_ssid` rejects. */
  lemma {:induction false} FoldFails(rec: WifiBssid, ks: seq<LineKind>)
    requires AllValid(ks)
    ensures Fold(rec, ks).Failure? <==> exists i :: 0 <= i < |ks| && Rejects(ks[i])
    decreases |ks|
  {
    if ks != [] {
      var first := Apply(rec, ks[0]);
      if first.Failure? {
        assert Rejects(ks[0]);
      } else {
        var tail := ks[1..];
        FoldFails(first.value, tail);
        assert Fold(rec, ks) == Fold(first.value, tail);
        if Fold(rec, ks).Failure? {
          var i :| 0 <= i < |tail| && Rejects(tail[i]);
          assert ks[i + 1] == tail[i];
        } else {
          assert !Rejects(ks[0]);
          forall i | 0 < i < |ks|
            ensures !Rejects(ks[i])
          {
            assert ks[i] == tail[i - 1];
            assert !Rejects(tail[i - 1]);
          }
        }
      }
    }
  }

  /** After a block has been folded, every field holds what the last line of
      its kind wrote, and the starting value when no line of that kind
      occurs.  In particular the PHY class is decided by the last line that
      matched none of the five field patterns, banner or not. */
  lemma BuildRecordFields(rec: WifiBssid, body: seq<string>, t: FieldTag)
    ensures var built := BuildRecord(rec, body); var last := LastOfKind(KindsOf(body), t);
      built.Success? ==>
        && built.value.bssid == rec.bssid
        && (last.None? ==> Field(built.value, t) == Field(rec, t))
        && (last.Some? ==> Written(Classify(body[last.value])) == Success(Field(built.value, t)))
  {
    if BuildRecord(rec, body).Success? {
      BuildRecordIsFold(rec, body);
      FoldField(rec, KindsOf(body), t);
    }
  }

  /** For a successful parse, field `t` of record `i` is what the last line
      of that kind in block `i` wrote, and otherwise the default a header
      line puts there. */
  lemma ParsedFields(lines: seq<string>, i: nat, t: FieldTag)
    requires ParseLines(lines).Success? && i < |ParseLines(lines).value|
    ensures i < |SplitBlocks(lines)|
    ensures var r := ParseLines(lines).value[i]; var body := SplitBlocks(lines)[i].body;
      var last := LastOfKind(KindsOf(body), t);
      && r.bssid == Headers(lines)[i]
      && (last.None? ==> Field(r, t) == Field(Fresh(r.bssid), t))
      && (last.Some? ==> Written(Classify(body[last.value])) == Success(Field(r, t)))
  {
    ParseLinesRecords(lines);
    var b := SplitBlocks(lines)[i];
    BuildRecordFields(Fresh(b.bssid), b.body, t);
  }

  /** A block fails exactly when one of its SSID lines is rejected by
      `parse_ssid`. */
  lemma BuildRecordFails(rec: WifiBssid, body: seq<string>)
    ensures BuildRecord(rec, body).Failure? <==> exists i :: 0 <= i < |body| && Rejects(Classify(body[i]))
  {
    var ks := KindsOf(body);
    BuildRecordIsFold(rec, body);
    FoldFails(rec, ks);
    if BuildRecord(rec, body).Failure? {
      var i :| 0 <= i < |ks| && Rejects(ks[i]);
      assert Rejects(Classify(body[i]));
    }
  }

  /** The scan as a whole fails exactly when some SSID line inside some block
      is rejected; lines outside every block are never looked at. */
  lemma ParseLinesFails(lines: seq<string>)
    ensures ParseLines(lines).Failure? <==>
      exists i, j :: 0 <= i < |SplitBlocks(lines)| && 0 <= j < |SplitBlocks(lines)[i].body|
        && Rejects(Classify(SplitBlocks(lines)[i].body[j]))
  {
    ParseLinesIsBlockwise(lines);
    var blocks := SplitBlocks(lines);
    BuildAllBlockwise(blocks);
    forall i | 0 <= i < |blocks|
      ensures BlockRecord(blocks[i]).Failure? <==>
        exists j :: 0 <= j < |blocks[i].body| && Rejects(Classify(blocks[i].body[j]))
    {
      BuildRecordFails(Fresh(blocks[i].bssid), blocks[i].body);
    }
  }
}
