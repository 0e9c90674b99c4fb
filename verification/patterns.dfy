/** The line patterns of the scan parser, each written as an extractor over
    one line of scan text.  All anchored patterns start `^\s*` followed by a
    literal whose first character is not whitespace, so `\s*` always takes
    the whole whitespace prefix and the literal is tried against
    `TrimStart(line)`.  `\d` is read as an ASCII digit. */
module Patterns {
  import opened Wrappers
  import opened Text
  import opened Numeric

  // ---------------------------------------------------------------------
  // Access-point header: ^BSS ([0-9a-f:]{17})

  const HeaderPrefix: string := "BSS "
  const MacLength: nat := 17

  predicate IsMacChar(c: char) {
    ('0' <= c <= '9') || ('a' <= c <= 'f') || c == ':'
  }

  predicate IsMacText(s: string) {
    |s| == MacLength && forall i :: 0 <= i < |s| ==> IsMacChar(s[i])
  }

  /** The 17-character address captured from a header line, anchored at
      column 0 (no leading whitespace allowed). */
  function MatchHeader(line: string): (r: Option<string>)
    ensures r.Some? ==> IsMacText(r.value) && StartsWith(line, HeaderPrefix + r.value)
    ensures r.None? ==>
      || !StartsWith(line, HeaderPrefix)
      || |line| < |HeaderPrefix| + MacLength
      || !IsMacText(line[|HeaderPrefix|..|HeaderPrefix| + MacLength])
  {
    if StartsWith(line, HeaderPrefix) && |line| >= |HeaderPrefix| + MacLength
      && IsMacText(line[|HeaderPrefix|..|HeaderPrefix| + MacLength])
    then
      var mac := line[|HeaderPrefix|..|HeaderPrefix| + MacLength];
      assert line[..|HeaderPrefix + mac|] == HeaderPrefix + mac;
      Some(mac)
    else None
  }

  /** Any text after the address is ignored: "BSS <mac>(on wlan0)" and
      "BSS <mac> -- associated" both give <mac>. */
  lemma MatchHeaderOf(mac: string, rest: string)
    requires IsMacText(mac)
    ensures MatchHeader(HeaderPrefix + mac + rest) == Some(mac)
  {
    var line := HeaderPrefix + mac + rest;
    assert line[..|HeaderPrefix|] == HeaderPrefix;
    assert line[|HeaderPrefix|..|HeaderPrefix| + MacLength] == mac;
  }

  // ---------------------------------------------------------------------
  // ^\s*LIT(\d+)   for "freq: " and "* primary channel: "

  const FreqLabel: string := "freq: "
  const ChannelLabel: string := "* primary channel: "

  /** The maximal digit run that follows `lit` after the indentation. */
  function MatchIndentedDigits(line: string, lit: string): (r: Option<string>)
    ensures var t := TrimStart(line);
      r.Some? <==> StartsWith(t, lit) && |t| > |lit| && IsAsciiDigit(t[|lit|])
    ensures var t := TrimStart(line);
      r.Some? ==>
        && r.value != [] && AllDigits(r.value)
        && StartsWith(t, lit + r.value)
        && (|t| == |lit| + |r.value| || !IsAsciiDigit(t[|lit| + |r.value|]))
  {
    var t := TrimStart(line);
    if StartsWith(t, lit) then
      var u := t[|lit|..];
      var n := LeadingDigits(u);
      if n > 0 then
        assert t[..|lit| + n] == lit + u[..n];
        Some(u[..n])
      else None
    else None
  }

  lemma {:induction false} LeadingDigitsOf(d: string, rest: string)
    requires AllDigits(d)
    requires rest == [] || !IsAsciiDigit(rest[0])
    ensures LeadingDigits(d + rest) == |d|
    decreases |d|
  {
    if d == [] {
      assert d + rest == rest;
    } else {
      assert (d + rest)[1..] == d[1..] + rest;
      LeadingDigitsOf(d[1..], rest);
    }
  }

  /** The indentation is skipped before the label is tried. */
  lemma TrimStartOfIndented(ws: string, rest: string)
    requires AllWhitespace(ws)
    requires rest != [] && !IsWhitespace(rest[0])
    ensures TrimStart(ws + rest) == rest
  {
    LeadingWhitespaceOfPadded(ws, rest);
    assert (ws + rest)[|ws|..] == rest;
  }

  /** Every indented "LIT<digits>" line is matched, with the digits captured,
      whatever follows a non-digit. */
  lemma IndentedDigitsOf(ws: string, lit: string, d: string, rest: string)
    requires AllWhitespace(ws) && lit != [] && !IsWhitespace(lit[0])
    requires d != [] && AllDigits(d)
    requires rest == [] || !IsAsciiDigit(rest[0])
    ensures MatchIndentedDigits(ws + lit + d + rest, lit) == Some(d)
  {
    AppendAssoc(ws, lit, d);
    AppendAssoc(ws, lit + d, rest);
    AppendAssoc(lit, d, rest);
    TrimStartOfIndented(ws, lit + d + rest);
    SidesOfAppend(lit, d + rest);
    LeadingDigitsOf(d, rest);
    SidesOfAppend(d, rest);
  }

  // ---------------------------------------------------------------------
  // ^\s*SSID:(.*)$

  const SsidLabel: string := "SSID:"

  /** Everything after "SSID:"; `.` does not match '\n', so a line holding
      one does not match at all. */
  function MatchSsidField(line: string): (r: Option<string>)
    ensures var t := TrimStart(line);
      r.Some? <==> StartsWith(t, SsidLabel) && '\n' !in t[|SsidLabel|..]
    ensures r.Some? ==> TrimStart(line) == SsidLabel + r.value
  {
    var t := TrimStart(line);
    if StartsWith(t, SsidLabel) && '\n' !in t[|SsidLabel|..] then
      assert t == SsidLabel + t[|SsidLabel|..];
      Some(t[|SsidLabel|..])
    else None
  }

  lemma SsidFieldOf(ws: string, value: string)
    requires AllWhitespace(ws)
    requires '\n' !in value
    ensures MatchSsidField(ws + SsidLabel + value) == Some(value)
  {
    assert ws + SsidLabel + value == ws + (SsidLabel + value);
    TrimStartOfIndented(ws, SsidLabel + value);
    assert (SsidLabel + value)[..|SsidLabel|] == SsidLabel;
    assert (SsidLabel + value)[|SsidLabel|..] == value;
  }

  // ---------------------------------------------------------------------
  // ^\s*last seen: (\d+)\s*ms

  const LastSeenLabel: string := "last seen: "
  const MsUnit: string := "ms"

  /** The digit run of a last-seen line; the digits must be followed by
      optional whitespace and "ms". */
  function MatchLastSeen(line: string): (r: Option<string>)
    ensures var t := TrimStart(line);
      r.Some? ==>
        && r.value != [] && AllDigits(r.value)
        && StartsWith(t, LastSeenLabel + r.value)
        && StartsWith(TrimStart(t[|LastSeenLabel| + |r.value|..]), MsUnit)
    ensures r.Some? <==>
      && MatchIndentedDigits(line, LastSeenLabel).Some?
      && var d := MatchIndentedDigits(line, LastSeenLabel).value;
         StartsWith(TrimStart(TrimStart(line)[|LastSeenLabel| + |d|..]), MsUnit)
  {
    match MatchIndentedDigits(line, LastSeenLabel)
    case None => None
    case Some(d) =>
      if StartsWith(TrimStart(TrimStart(line)[|LastSeenLabel| + |d|..]), MsUnit) then Some(d) else None
  }

  lemma LastSeenOf(ws: string, d: string, gap: string, rest: string)
    requires AllWhitespace(ws) && AllWhitespace(gap)
    requires d != [] && AllDigits(d)
    ensures MatchLastSeen(ws + LastSeenLabel + d + gap + MsUnit + rest) == Some(d)
  {
    var tail := gap + (MsUnit + rest);
    var line := ws + LastSeenLabel + d + gap + MsUnit + rest;
    assert line == ws + LastSeenLabel + d + tail;
    TrimStartOfIndented(gap, MsUnit + rest);
    assert tail == [] || !IsAsciiDigit(tail[0]) by {
      if gap != [] {
        assert tail[0] == gap[0];
      } else {
        assert tail == MsUnit + rest;
      }
    }
    IndentedDigitsOf(ws, LastSeenLabel, d, tail);
    UnitAfterDigits(ws, d, tail);
    assert StartsWith(MsUnit + rest, MsUnit);
  }

  lemma UnitAfterDigits(ws: string, d: string, tail: string)
    requires AllWhitespace(ws)
    ensures TrimStart(ws + LastSeenLabel + d + tail) == LastSeenLabel + d + tail
    ensures TrimStart(ws + LastSeenLabel + d + tail)[|LastSeenLabel| + |d|..] == tail
  {
    var t := LastSeenLabel + d + tail;
    assert ws + LastSeenLabel + d + tail == ws + t;
    TrimStartOfIndented(ws, t);
    assert t[|LastSeenLabel| + |d|..] == tail;
  }

  // ---------------------------------------------------------------------
  // signal:\s*([-]?\d+(?:\.\d+)?) dBm      (not anchored)

  const SignalLabel: string := "signal:"
  const DbmUnit: string := " dBm"

  /** The part of the signal pattern after "signal:", anchored at the start
      of `t`.  None of its greedy parts can give anything back, so the
      reading is determined: whitespace, an optional '-', the whole digits,
      and either ".<digits> dBm" or " dBm". */
  function SignalReading(t: string): (r: Option<Decimal>)
    ensures r.Some? ==> r.value.Valid()
  {
    var u := TrimStart(t);
    var negative := u != [] && u[0] == '-';
    UnsignedReading(negative, if negative then u[1..] else u)
  }

  /** The rest of the reading once the sign is settled: `\d+(?:\.\d+)? dBm`. */
  function UnsignedReading(negative: bool, v: string): (r: Option<Decimal>)
    ensures r.Some? ==> r.value.Valid() && r.value.negative == negative
  {
    var n := LeadingDigits(v);
    if n == 0 then None
    else
      var whole := v[..n];
      var after := v[n..];
      if StartsWith(after, DbmUnit) then Some(Decimal(negative, whole, ""))
      else if after != [] && after[0] == '.' then
        var m := LeadingDigits(after[1..]);
        if m > 0 && StartsWith(after[1..][m..], DbmUnit) then Some(Decimal(negative, whole, after[1..][..m]))
        else None
      else None
  }

  /** How a reading is written in scan text: "-45 dBm", "-45.00 dBm". */
  function ReadingText(x: Decimal): string {
    (if x.negative then "-" else "") + UnsignedText(x)
  }

  function UnsignedText(x: Decimal): string {
    x.whole + (if x.fraction == [] then "" else "." + x.fraction) + DbmUnit
  }

  /** Every written reading is read back as itself, after any whitespace and
      whatever follows. */
  lemma SignalReadingOf(ws: string, x: Decimal, rest: string)
    requires AllWhitespace(ws) && x.Valid()
    ensures SignalReading(ws + ReadingText(x) + rest) == Some(x)
  {
    var v := UnsignedText(x) + rest;
    var u := (if x.negative then "-" else "") + v;
    assert ws + ReadingText(x) + rest == ws + u;
    assert v[0] == x.whole[0];
    assert u[0] == (if x.negative then '-' else x.whole[0]);
    TrimStartOfIndented(ws, u);
    assert (if x.negative then u[1..] else u) == v;
    UnsignedReadingOf(x, rest);
  }

  lemma UnsignedReadingOf(x: Decimal, rest: string)
    requires x.Valid()
    ensures UnsignedReading(x.negative, UnsignedText(x) + rest) == Some(x)
  {
    var after := (if x.fraction == [] then "" else "." + x.fraction) + DbmUnit + rest;
    var v := UnsignedText(x) + rest;
    assert v == x.whole + after;
    LeadingDigitsOf(x.whole, after);
    assert v[..|x.whole|] == x.whole;
    assert v[|x.whole|..] == after;
    if x.fraction == [] {
      assert after == DbmUnit + rest;
      assert after[..|DbmUnit|] == DbmUnit;
    } else {
      FractionReadingOf(x.fraction, rest);
    }
  }

  lemma FractionReadingOf(fraction: string, rest: string)
    requires fraction != [] && AllDigits(fraction)
    ensures var after := "." + fraction + DbmUnit + rest;
      && !StartsWith(after, DbmUnit)
      && LeadingDigits(after[1..]) == |fraction|
      && after[1..][..|fraction|] == fraction
      && StartsWith(after[1..][|fraction|..], DbmUnit)
  {
    var after := "." + fraction + DbmUnit + rest;
    assert after[0] == '.';
    assert after[1..] == fraction + (DbmUnit + rest);
    LeadingDigitsOf(fraction, DbmUnit + rest);
    assert (DbmUnit + rest)[..|DbmUnit|] == DbmUnit;
  }

  /** Conversely, a reading comes only from text that starts with its
      written form: the digits, the fraction if any, and " dBm". */
  lemma UnsignedReadingShape(negative: bool, v: string)
    ensures var r := UnsignedReading(negative, v);
      r.Some? ==> StartsWith(v, UnsignedText(r.value))
  {
    var r := UnsignedReading(negative, v);
    if r.Some? {
      var n := LeadingDigits(v);
      var whole := v[..n];
      var after := v[n..];
      assert v == whole + after;
      if StartsWith(after, DbmUnit) {
        StartsWithPrepend(whole, after, DbmUnit);
        assert UnsignedText(r.value) == whole + DbmUnit;
      } else {
        var m := LeadingDigits(after[1..]);
        FractionShape(after, m);
        StartsWithPrepend(whole, after, "." + after[1..][..m] + DbmUnit);
        AppendAssoc(whole, "." + after[1..][..m], DbmUnit);
      }
    }
  }

  lemma FractionShape(after: string, m: nat)
    requires after != [] && after[0] == '.'
    requires m <= |after| - 1 && StartsWith(after[1..][m..], DbmUnit)
    ensures StartsWith(after, "." + after[1..][..m] + DbmUnit)
  {
    var fraction := after[1..][..m];
    StartsWithPrepend(fraction, after[1..][m..], DbmUnit);
    assert after[1..] == fraction + after[1..][m..];
    StartsWithPrepend(".", after[1..], fraction + DbmUnit);
    assert after == "." + after[1..];
    AppendAssoc(".", fraction, DbmUnit);
  }

  /** A signal reading comes only from text made of the maximal whitespace
      prefix that `\s*` consumes, followed by the reading's written form. */
  lemma SignalReadingShape(t: string)
    ensures var r := SignalReading(t); var k := |t| - |TrimStart(t)|;
      r.Some? ==> AllWhitespace(t[..k]) && StartsWith(t[k..], ReadingText(r.value))
  {
    var r := SignalReading(t);
    if r.Some? {
      var u := TrimStart(t);
      var negative := u != [] && u[0] == '-';
      var v := if negative then u[1..] else u;
      UnsignedReadingShape(negative, v);
      var w := UnsignedText(r.value);
      assert r.value.negative == negative;
      if negative {
        assert u == "-" + v;
        assert ReadingText(r.value) == "-" + w;
        assert u[..|w| + 1] == "-" + v[..|w|];
      } else {
        assert ReadingText(r.value) == w;
      }
    }
  }

  /** An attempt of the signal pattern that starts at index `p`. */
  function SignalAt(line: string, p: nat): (r: Option<Decimal>)
    ensures r.Some? ==> p <= |line| && StartsWith(line[p..], SignalLabel) && r.value.Valid()
  {
    if p <= |line| && StartsWith(line[p..], SignalLabel) then SignalReading(line[p + |SignalLabel|..])
    else None
  }

  datatype SignalMatch = SignalMatch(start: nat, reading: Decimal)

  /** No attempt starting in [lo, hi) succeeds. */
  predicate NoSignal(line: string, lo: nat, hi: nat) {
    forall q :: lo <= q < hi ==> SignalAt(line, q).None?
  }

  lemma NoSignalExtend(line: string, p: nat, hi: nat)
    requires p < hi && SignalAt(line, p).None? && NoSignal(line, p + 1, hi)
    ensures NoSignal(line, p, hi)
  {
  }

  /** The leftmost attempt at or after `p` that succeeds. */
  function SignalFrom(line: string, p: nat): (r: Option<SignalMatch>)
    requires p <= |line|
    ensures r.Some? ==>
      && p <= r.value.start <= |line|
      && SignalAt(line, r.value.start) == Some(r.value.reading)
      && NoSignal(line, p, r.value.start)
    ensures r.None? ==> NoSignal(line, p, |line| + 1)
    decreases |line| - p
  {
    var here := SignalAt(line, p);
    if here.Some? then Some(SignalMatch(p, here.value))
    else if p == |line| then
      NoSignalExtend(line, p, p + 1);
      None
    else
      var later := SignalFrom(line, p + 1);
      NoSignalExtend(line, p, if later.Some? then later.value.start else |line| + 1);
      later
  }

  /** re_signal.captures(line): the leftmost match anywhere in the line. */
  function MatchSignal(line: string): (r: Option<SignalMatch>)
    ensures r.Some? ==>
      && r.value.start <= |line|
      && SignalAt(line, r.value.start) == Some(r.value.reading)
      && NoSignal(line, 0, r.value.start)
    ensures r.None? <==> NoSignal(line, 0, |line| + 1)
  {
    var r0 := SignalFrom(line, 0);
    assert r0.Some? ==> !NoSignal(line, 0, |line| + 1) by {
      if r0.Some? {
        assert SignalAt(line, r0.value.start).Some?;
      }
    }
    r0
  }


  // ---------------------------------------------------------------------
  // ^\s*UHR capabilities: ... ^\s*HT capabilities:

  const UhrBanner: string := "UHR capabilities:"
  const EhtBanner: string := "EHT capabilities:"
  const HeBanner: string := "HE capabilities:"
  const VhtBanner: string := "VHT capabilities:"
  const HtBanner: string := "HT capabilities:"

  /** `^\s*<banner>`: after the indentation, the line starts with the banner. */
  function HasBanner(line: string, banner: string): (b: bool)
    ensures b ==> var k := |line| - |TrimStart(line)|;
      && AllWhitespace(line[..k]) && k + |banner| <= |line| && line[k..k + |banner|] == banner
  {
    StartsWith(TrimStart(line), banner)
  }

  /** Conversely, a banner after any indentation is found, whatever follows. */
  lemma BannerOf(ws: string, banner: string, rest: string)
    requires AllWhitespace(ws) && banner != [] && !IsWhitespace(banner[0])
    ensures HasBanner(ws + banner + rest, banner)
  {
    AppendAssoc(ws, banner, rest);
    TrimStartOfIndented(ws, banner + rest);
    assert (banner + rest)[..|banner|] == banner;
  }

  /** A string that starts with `prefix` agrees with it at every index the
      prefix covers. */
  lemma StartsWithAt(t: string, prefix: string, k: nat)
    requires StartsWith(t, prefix) && k < |prefix|
    ensures t[k] == prefix[k]
  {
    assert t[..|prefix|][k] == t[k];
  }

  /** No line carries two capability banners: the five literals are pairwise
      not prefixes of one another, so the order in which they are tried
      never matters. */
  lemma BannersExclusive(line: string)
    ensures HasBanner(line, UhrBanner) ==>
      !HasBanner(line, EhtBanner) && !HasBanner(line, HeBanner) && !HasBanner(line, VhtBanner) && !HasBanner(line, HtBanner)
    ensures HasBanner(line, EhtBanner) ==>
      !HasBanner(line, HeBanner) && !HasBanner(line, VhtBanner) && !HasBanner(line, HtBanner)
    ensures HasBanner(line, HeBanner) ==> !HasBanner(line, VhtBanner) && !HasBanner(line, HtBanner)
    ensures HasBanner(line, VhtBanner) ==> !HasBanner(line, HtBanner)
  {
    var t := TrimStart(line);
    if HasBanner(line, UhrBanner) { StartsWithAt(t, UhrBanner, 0); }
    if HasBanner(line, EhtBanner) { StartsWithAt(t, EhtBanner, 0); }
    if HasBanner(line, HeBanner) { StartsWithAt(t, HeBanner, 0); StartsWithAt(t, HeBanner, 1); }
    if HasBanner(line, VhtBanner) { StartsWithAt(t, VhtBanner, 0); }
    if HasBanner(line, HtBanner) { StartsWithAt(t, HtBanner, 0); StartsWithAt(t, HtBanner, 1); }
  }

  /** The four anchored field patterns exclude one another (their labels
      begin with different characters); only the unanchored signal pattern
      can share a line with one of them. */
  lemma AnchoredFieldsExclusive(line: string)
    ensures MatchSsidField(line).Some? ==>
      MatchIndentedDigits(line, FreqLabel).None? && MatchIndentedDigits(line, ChannelLabel).None?
      && MatchLastSeen(line).None?
    ensures MatchIndentedDigits(line, FreqLabel).Some? ==>
      MatchIndentedDigits(line, ChannelLabel).None? && MatchLastSeen(line).None?
    ensures MatchIndentedDigits(line, ChannelLabel).Some? ==> MatchLastSeen(line).None?
  {
    var t := TrimStart(line);
    if MatchSsidField(line).Some? { StartsWithAt(t, SsidLabel, 0); }
    if MatchIndentedDigits(line, FreqLabel).Some? { StartsWithAt(t, FreqLabel, 0); }
    if MatchIndentedDigits(line, ChannelLabel).Some? { StartsWithAt(t, ChannelLabel, 0); }
    if MatchIndentedDigits(line, LastSeenLabel).Some? { StartsWithAt(t, LastSeenLabel, 0); }
  }
}
