/** Concrete inputs, each pinned to the outcome the contracts force. */
module ScanExamples {
  import opened Wrappers
  import opened Text
  import opened Numeric
  import opened Ssid
  import opened ScanParser
  import opened Patterns
  import opened ScanBlocks

  /** The empty SSID is hidden. */
  lemma EmptySsidIsHidden()
    ensures ParseSsid("") == Success(None)
  {
    assert Trim("") == "";
  }

  /** A tab left between two escapes cleans to nothing: the scan aborts. */
  lemma TabBetweenEscapesAborts(e1: string, e2: string)
    requires |e1| == 4 && EscapeAt(e1, 0) && |e2| == 4 && EscapeAt(e2, 0)
    ensures ParseSsid(e1 + "\t" + e2) == Failure(EmptyAfterCleaning(e1 + "\t" + e2))
  {
    var s := e1 + "\t" + e2;
    TabBetweenEscapesShape(e1, e2);
    assert Trim(s) == s;
    assert AllWhitespace("\t") && !AllSpaces("\t");
  }

  lemma TabBetweenEscapesShape(e1: string, e2: string)
    requires |e1| == 4 && EscapeAt(e1, 0) && |e2| == 4 && EscapeAt(e2, 0)
    ensures var s := e1 + "\t" + e2;
      && Trim(s) == s && HasEscape(s) && !IsHidden(s) && StripEscapes(s) == "\t"
  {
    var tail := "\t" + e2;
    var s := e1 + tail;
    AppendAssoc(e1, "\t", e2);
    SidesOfAppend(e1, tail);
    assert EscapeAt(s, 0);
    TrimOfEscapes(s);
    TabThenEscape(e2);
  }

  lemma TrimOfEscapes(s: string)
    requires |s| >= 4 && EscapeAt(s, 0) && IsHexDigit(s[|s| - 1])
    ensures Trim(s) == s
  {
    assert !IsWhitespace(s[0]) && !IsWhitespace(s[|s| - 1]);
    TrimOfPadded("", s, "");
    assert "" + s + "" == s;
  }

  lemma TabThenEscape(e: string)
    requires |e| == 4 && EscapeAt(e, 0)
    ensures !IsHidden("\t" + e) && StripEscapes("\t" + e) == "\t"
  {
    var tail := "\t" + e;
    TailOfAppend("\t", e);
    assert !EscapeAt(tail, 0);
    assert StripEscapes(e) == [] by {
      assert e[4..] == [];
    }
  }

  /** An escape inside a printable name is deleted and the rest kept:
      "Guest\x00Net" is reported as "GuestNet". */
  lemma GuestNetCleaned()
    ensures ParseSsid("Guest\\x00Net") == Success(Some("GuestNet"))
  {
    assert "Guest" + "\\x00" + "Net" == "Guest\\x00Net";
    assert "Guest" + "Net" == "GuestNet";
    CleanedAroundEscape("Guest", "\\x00", "Net");
  }

  /** The same for any escape between two escape-free parts that start and
      end the name with non-whitespace. */
  lemma CleanedAroundEscape(a: string, e: string, b: string)
    requires |e| == 4 && EscapeAt(e, 0)
    requires a != [] && b != [] && '\\' !in a && '\\' !in b
    requires !IsWhitespace(a[0]) && !IsWhitespace(b[|b| - 1])
    ensures ParseSsid(a + e + b) == Success(Some(a + b))
  {
    var s := a + e + b;
    AroundEscapeShape(a, e, b);
    assert Trim(s) == s;
    assert !AllWhitespace(a + b) by {
      assert (a + b)[0] == a[0];
    }
  }

  lemma AroundEscapeShape(a: string, e: string, b: string)
    requires |e| == 4 && EscapeAt(e, 0)
    requires a != [] && b != [] && '\\' !in a && '\\' !in b
    requires !IsWhitespace(a[0]) && !IsWhitespace(b[|b| - 1])
    ensures var s := a + e + b;
      && Trim(s) == s && HasEscape(s) && !IsHidden(s)
      && StripEscapes(s) == a + b && Trim(a + b) == a + b
  {
    AroundEscapeEnds(a, e, b);
    AroundEscapeCleaned(a, e, b);
  }

  lemma AroundEscapeEnds(a: string, e: string, b: string)
    requires |e| == 4
    requires a != [] && b != [] && !IsWhitespace(a[0]) && !IsWhitespace(b[|b| - 1])
    ensures Trim(a + e + b) == a + e + b && Trim(a + b) == a + b
  {
    var s := a + e + b;
    assert s[0] == a[0] && s[|s| - 1] == b[|b| - 1];
    TrimOfTrimmed(s);
    assert (a + b)[0] == a[0] && (a + b)[|a + b| - 1] == b[|b| - 1];
    TrimOfTrimmed(a + b);
  }

  lemma AroundEscapeCleaned(a: string, e: string, b: string)
    requires |e| == 4 && EscapeAt(e, 0)
    requires a != [] && '\\' !in a && '\\' !in b && a[0] != ' '
    ensures var s := a + e + b;
      HasEscape(s) && !IsHidden(s) && StripEscapes(s) == a + b
  {
    var s := a + e + b;
    AppendAssoc(a, e, b);
    SidesOfAppend(a, e + b);
    SidesOfAppend(e, b);
    assert EscapeAt(s, |a|);
    forall i | 0 <= i < |a| ensures !EscapeAt(s, i) {
      assert s[i] == a[i];
    }
    StripEscapesOfMatch(a, e, b);
    assert !HasEscape(b);
  }

  /** A control character that `trim()` keeps, here U+0001, matches no
      pattern on its own, so `parse_ssid` panics.  The control characters
      that are whitespace (tab, line feed, vertical tab, form feed, carriage
      return) trim away instead, and the SSID is hidden. */
  lemma ControlOnlyAborts()
    ensures ParseSsid([1 as char]) == Failure(NoKnownPattern([1 as char]))
  {
    var s := [1 as char];
    assert !IsWhitespace(s[0]);
    TrimOfPadded("", s, "");
    assert "" + s + "" == s;
    assert s[0] as int == 1 && IsControl(s[0]) && s[0] != ' ';
    assert !HasEscape(s) && !HasNonControl(s);
    assert !IsHidden(s) by {
      assert !EscapeAt(s, 0);
    }
  }

  /** An SSID of whitespace only trims to nothing and is hidden. */
  lemma WhitespaceOnlyIsHidden(s: string)
    requires AllWhitespace(s)
    ensures ParseSsid(s) == Success(None)
  {
    assert Trim(s) == "";
  }

  /** A lone tab is hidden, not rejected. */
  lemma LoneTabIsHidden()
    ensures ParseSsid("\t") == Success(None)
  {
    assert IsWhitespace("\t"[0]);
    WhitespaceOnlyIsHidden("\t");
  }

  /** A capability banner followed by a plain line leaves the class at
      Legacy: the last line that matched no field decides. */
  lemma LastPlainLineDecidesPhy(mac: string, mhz: string)
    requires mhz != [] && AllDigits(mhz)
    ensures var ks := [OtherLine(HT), FreqLine(mhz), OtherLine(Legacy)];
      && LastOfKind(ks, PhyTag) == Some(2)
      && Fold(Fresh(mac), ks).Success?
      && Fold(Fresh(mac), ks).value.phy == Legacy
      && Fold(Fresh(mac), ks).value.frequency == Frequency(mhz)
  {
    var ks := [OtherLine(HT), FreqLine(mhz), OtherLine(Legacy)];
    var afterHt := Fresh(mac).(phy := HT);
    var afterFreq := afterHt.(frequency := Frequency(mhz));
    assert Fold(afterFreq.(phy := Legacy), []) == Success(afterFreq.(phy := Legacy));
    assert [OtherLine(Legacy)][1..] == [];
    assert Fold(afterFreq, [OtherLine(Legacy)]) == Success(afterFreq.(phy := Legacy));
    assert [FreqLine(mhz), OtherLine(Legacy)][1..] == [OtherLine(Legacy)];
    assert Fold(afterHt, [FreqLine(mhz), OtherLine(Legacy)]) == Success(afterFreq.(phy := Legacy));
    assert ks[1..] == [FreqLine(mhz), OtherLine(Legacy)];
  }

  /** The same over the lines of a scan block, indented as the scan tool
      indents them: an HT banner, a frequency line and a plain line leave
      the frequency set and the class at Legacy. */
  lemma PlainLineAfterBannerIsLegacy(mac: string, ws: string, mhz: string)
    requires AllWhitespace(ws) && mhz != [] && AllDigits(mhz)
    ensures var r := BuildRecord(Fresh(mac), [ws + "HT capabilities:", ws + "freq: " + mhz, ws + "plain"]);
      && r.Success?
      && r.value.phy == Legacy
      && r.value.frequency == Frequency(mhz)
  {
    ClassifyHtBanner(ws);
    ClassifyFreq(ws, mhz);
    ClassifyPlain(ws);
    BannerFreqPlainBlock(mac, [ws + "HT capabilities:", ws + "freq: " + mhz, ws + "plain"], mhz);
  }

  /** Any block whose lines classify as an HT banner, a frequency and a
      plain line. */
  lemma BannerFreqPlainBlock(mac: string, body: seq<string>, mhz: string)
    requires |body| == 3 && mhz != [] && AllDigits(mhz)
    requires Classify(body[0]) == OtherLine(HT)
    requires Classify(body[1]) == FreqLine(mhz)
    requires Classify(body[2]) == OtherLine(Legacy)
    ensures var r := BuildRecord(Fresh(mac), body);
      && r.Success?
      && r.value.phy == Legacy
      && r.value.frequency == Frequency(mhz)
  {
    BuildRecordStep(Fresh(mac), body, 0);
    assert body[1..][0] == body[1] && body[1..][1] == body[2];
    FreqThenPlain(Fresh(mac).(phy := HT), body[1..], mhz);
  }

  lemma FreqThenPlain(rec: WifiBssid, body: seq<string>, mhz: string)
    requires |body| == 2 && mhz != [] && AllDigits(mhz)
    requires Classify(body[0]) == FreqLine(mhz)
    requires Classify(body[1]) == OtherLine(Legacy)
    ensures BuildRecord(rec, body[0..]) == Success(rec.(frequency := Frequency(mhz)).(phy := Legacy))
  {
    BuildRecordStep(rec, body, 0);
    PlainLast(rec.(frequency := Frequency(mhz)), body);
  }

  lemma PlainLast(rec: WifiBssid, body: seq<string>)
    requires |body| == 2 && Classify(body[1]) == OtherLine(Legacy)
    ensures BuildRecord(rec, body[1..]) == Success(rec.(phy := Legacy))
  {
    BuildRecordStep(rec, body, 1);
    assert BuildRecord(rec.(phy := Legacy), body[2..]) == Success(rec.(phy := Legacy));
  }

  /** One line of a block applied, when it is accepted. */
  lemma BuildRecordStep(rec: WifiBssid, body: seq<string>, i: nat)
    requires i < |body| && Apply(rec, Classify(body[i])).Success?
    ensures BuildRecord(rec, body[i..]) == BuildRecord(Apply(rec, Classify(body[i])).value, body[i + 1..])
  {
    assert body[i..][0] == body[i] && body[i..][1..] == body[i + 1..];
  }

  /** No line without a 'g' holds "signal:". */
  lemma NoSignalWithoutG(line: string)
    requires 'g' !in line
    ensures MatchSignal(line).None?
  {
    forall q | 0 <= q < |line| + 1 ensures SignalAt(line, q).None? {
      if q + 2 < |line| {
        assert line[q + 2] != 'g';
        assert line[q..][2] != SignalLabel[2];
      }
      assert !StartsWith(line[q..], SignalLabel);
    }
    assert NoSignal(line, 0, |line| + 1);
  }

  /** An indented line whose text starts with none of the field labels'
      first characters, and holds no 'g', is a plain line for the banner
      test. */
  lemma PlainLineOf(ws: string, t: string)
    requires AllWhitespace(ws) && t != [] && !IsWhitespace(t[0])
    requires t[0] != 'S' && t[0] != 'f' && t[0] != '*' && t[0] != 'l'
    requires 'g' !in ws + t
    ensures Classify(ws + t) == OtherLine(BannerPhy(ws + t))
  {
    var line := ws + t;
    TrimStartOfIndented(ws, t);
    NoSignalWithoutG(line);
    assert !StartsWith(t, SsidLabel) by {
      assert t[0] != SsidLabel[0];
    }
    assert !StartsWith(t, FreqLabel) by {
      assert t[0] != FreqLabel[0];
    }
    assert !StartsWith(t, ChannelLabel) by {
      assert t[0] != ChannelLabel[0];
    }
    assert !StartsWith(t, LastSeenLabel) by {
      assert t[0] != LastSeenLabel[0];
    }
  }

  /** Whitespace holds no 'g', so it adds none to a line. */
  lemma NoGInIndented(ws: string, t: string)
    requires AllWhitespace(ws) && 'g' !in t
    ensures 'g' !in ws + t
  {
    forall i | 0 <= i < |ws + t| ensures (ws + t)[i] != 'g' {
      if i < |ws| {
        assert IsWhitespace(ws[i]);
      } else {
        assert (ws + t)[i] == t[i - |ws|];
      }
    }
  }

  lemma ClassifyHtBanner(ws: string)
    requires AllWhitespace(ws)
    ensures Classify(ws + "HT capabilities:") == OtherLine(HT)
  {
    var t := "HT capabilities:";
    NoGInIndented(ws, t);
    PlainLineOf(ws, t);
    TrimStartOfIndented(ws, t);
    assert t[..|HtBanner|] == HtBanner;
  }

  lemma ClassifyPlain(ws: string)
    requires AllWhitespace(ws)
    ensures Classify(ws + "plain") == OtherLine(Legacy)
  {
    var t := "plain";
    NoGInIndented(ws, t);
    PlainLineOf(ws, t);
    TrimStartOfIndented(ws, t);
    assert |t| < |HeBanner| && |t| < |HtBanner|;
  }

  lemma ClassifyFreq(ws: string, mhz: string)
    requires AllWhitespace(ws) && mhz != [] && AllDigits(mhz)
    ensures Classify(ws + "freq: " + mhz) == FreqLine(mhz)
  {
    assert ws + "freq: " + mhz == ws + FreqLabel + mhz + "";
    IndentedDigitsOf(ws, FreqLabel, mhz, "");
  }
}
