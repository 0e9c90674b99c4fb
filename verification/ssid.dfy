/** `parse_ssid`: classification and cleaning of the text that follows
    "SSID:" in a scan block.  The scan tool writes unprintable bytes as
    four-character `\xHH` escapes; the four patterns of the source become
    the predicates below. */
module Ssid {
  import opened Wrappers
  import opened Text

  /** The two `panic!` paths of `parse_ssid`, as values.  Each carries the
      trimmed SSID the panic message prints. */
  datatype SsidAbort =
    | EmptyAfterCleaning(ssid: string)
    | NoKnownPattern(ssid: string)

  predicate IsHexDigit(c: char) {
    ('0' <= c <= '9') || ('a' <= c <= 'f') || ('A' <= c <= 'F')
  }

  /** A `\xHH` escape (the regex `\\x[0-9A-Fa-f]{2}`) starts at index `i`. */
  predicate EscapeAt(s: string, i: nat) {
    && i + 4 <= |s|
    && s[i] == '\\'
    && s[i + 1] == 'x'
    && IsHexDigit(s[i + 2])
    && IsHexDigit(s[i + 3])
  }

  /** RE_HIDDEN, `^(?:\\x[0-9A-Fa-f]{2}| )*$`: the whole string is a run of
      escapes and ASCII spaces (the empty string included). */
  predicate IsHidden(s: string)
    decreases |s|
  {
    || s == []
    || (s[0] == ' ' && IsHidden(s[1..]))
    || (EscapeAt(s, 0) && IsHidden(s[4..]))
  }

  /** RE_INVALID, `^(?:\\x[0-9A-Fa-f]{2})+$`: one or more escapes and nothing
      else. */
  predicate IsAllEscapes(s: string)
    decreases |s|
  {
    EscapeAt(s, 0) && (|s| == 4 || IsAllEscapes(s[4..]))
  }

  /** RE_ESCAPE matches somewhere in `s`. */
  predicate HasEscape(s: string) {
    exists i: nat :: i < |s| && EscapeAt(s, i)
  }

  /** Characters the class `[\x00-\x1F\x7F]` contains. */
  predicate IsControl(c: char) {
    c as int <= 0x1F || c as int == 0x7F
  }

  /** RE_VALID_UTF8, `[^\x00-\x1F\x7F]`, matches somewhere in `s`. */
  predicate HasNonControl(s: string) {
    exists i :: 0 <= i < |s| && !IsControl(s[i])
  }

  predicate AllSpaces(s: string) {
    forall i :: 0 <= i < |s| ==> s[i] == ' '
  }

  /** `RE_ESCAPE.replace_all(s, "")`: one left-to-right pass that deletes
      each leftmost non-overlapping escape and keeps every other character. */
  function StripEscapes(s: string): (r: string)
    ensures |r| <= |s|
    ensures !HasEscape(s) ==> r == s
    ensures HasEscape(s) ==> |r| <= |s| - 4
    decreases |s|
  {
    if s == [] then []
    else if EscapeAt(s, 0) then
      assert HasEscape(s) by { assert EscapeAt(s, 0); }
      StripEscapes(s[4..])
    else
      var rest := s[1..];
      assert HasEscape(rest) ==> HasEscape(s) by {
        if HasEscape(rest) {
          var i: nat :| i < |rest| && EscapeAt(rest, i);
          assert EscapeAt(s, i + 1);
        }
      }
      assert HasEscape(s) ==> HasEscape(rest) by {
        if HasEscape(s) {
          var i: nat :| i < |s| && EscapeAt(s, i);
          assert i > 0;
          assert EscapeAt(rest, i - 1);
        }
      }
      [s[0]] + StripEscapes(rest)
  }

  /** An escape at `i + 1` of `s` is an escape at `i` of `s[1..]`. */
  lemma EscapeAtTail(s: string, i: nat)
    requires s != []
    ensures EscapeAt(s, i + 1) <==> EscapeAt(s[1..], i)
  {
  }

  /** `replace_all` works match by match: when the leftmost escape of a
      string is `e`, following the escape-free text `p`, the cleaned string
      is `p` followed by the cleaned remainder after `e`. */
  lemma {:induction false} StripEscapesOfMatch(p: string, e: string, q: string)
    requires |e| == 4 && EscapeAt(e, 0)
    requires forall i :: 0 <= i < |p| ==> !EscapeAt(p + e + q, i)
    ensures StripEscapes(p + e + q) == p + StripEscapes(q)
    decreases |p|
  {
    var eq := e + q;
    AppendAssoc(p, e, q);
    var s := p + eq;
    if p == [] {
      assert s == eq;
      SidesOfAppend(e, q);
      assert EscapeAt(s, 0);
    } else {
      TailOfAppend(p, eq);
      assert !EscapeAt(s, 0);
      forall i | 0 <= i < |p[1..]| ensures !EscapeAt(p[1..] + eq, i) {
        EscapeAtTail(s, i);
      }
      AppendAssoc(p[1..], e, q);
      StripEscapesOfMatch(p[1..], e, q);
      AppendAssoc([p[0]], p[1..], StripEscapes(q));
      assert p == [p[0]] + p[1..];
    }
  }

  /** The hidden test and the cleaning agree: a string is hidden exactly when
      deleting its escapes leaves nothing but ASCII spaces. */
  lemma {:induction false} HiddenIffStripsToSpaces(s: string)
    ensures IsHidden(s) <==> AllSpaces(StripEscapes(s))
    decreases |s|
  {
    if s == [] {
    } else if EscapeAt(s, 0) {
      HiddenIffStripsToSpaces(s[4..]);
    } else {
      HiddenIffStripsToSpaces(s[1..]);
      var t := StripEscapes(s[1..]);
      assert StripEscapes(s) == [s[0]] + t;
      assert AllSpaces([s[0]] + t) <==> s[0] == ' ' && AllSpaces(t) by {
        if s[0] == ' ' && AllSpaces(t) {
          forall i | 0 <= i < |t| + 1 ensures ([s[0]] + t)[i] == ' ' {
            if i > 0 {
              assert ([s[0]] + t)[i] == t[i - 1];
            }
          }
        }
        if AllSpaces([s[0]] + t) {
          assert ([s[0]] + t)[0] == ' ';
          forall i | 0 <= i < |t| ensures t[i] == ' ' {
            assert ([s[0]] + t)[i + 1] == t[i];
          }
        }
      }
    }
  }

  /** The invalid test at parse_ssid's second branch only accepts strings the
      hidden test already accepted, so that branch is never taken. */
  lemma {:induction false} AllEscapesIsHidden(s: string)
    requires IsAllEscapes(s)
    ensures IsHidden(s)
    decreases |s|
  {
    if |s| == 4 {
      assert IsHidden(s[4..]);
    } else {
      AllEscapesIsHidden(s[4..]);
    }
  }

  /** A string is escapes only exactly when it is non-empty and cleaning it
      leaves nothing. */
  lemma {:induction false} AllEscapesIffStripsToEmpty(s: string)
    ensures IsAllEscapes(s) <==> s != [] && StripEscapes(s) == []
    decreases |s|
  {
    if s != [] && EscapeAt(s, 0) && |s| > 4 {
      AllEscapesIffStripsToEmpty(s[4..]);
    }
  }

  /** A hidden string without escapes is all ASCII spaces. */
  lemma {:induction false} HiddenWithoutEscapeIsSpaces(s: string)
    requires IsHidden(s) && !HasEscape(s)
    ensures AllSpaces(s)
  {
    HiddenIffStripsToSpaces(s);
  }

  /** `parse_ssid`: `Success(None)` for a hidden SSID, `Success(Some(..))` for
      a cleaned or clean one, and `Failure` where the source panics. */
  function ParseSsid(raw: string): (r: Result<Option<string>, SsidAbort>)
    ensures r == Success(None) <==> IsHidden(Trim(raw))
    ensures r == Failure(EmptyAfterCleaning(Trim(raw))) <==>
      var cleaned := StripEscapes(Trim(raw));
      HasEscape(Trim(raw)) && AllWhitespace(cleaned) && !AllSpaces(cleaned)
    ensures r == Failure(NoKnownPattern(Trim(raw))) <==>
      !IsHidden(Trim(raw)) && !HasEscape(Trim(raw)) && !HasNonControl(Trim(raw))
    ensures !IsHidden(Trim(raw)) && HasEscape(Trim(raw)) && r.Success? ==>
      r.value == Some(Trim(StripEscapes(Trim(raw))))
    ensures !HasEscape(Trim(raw)) && HasNonControl(Trim(raw)) ==> r == Success(Some(Trim(raw)))
    ensures r.Success? && r.value.Some? ==> r.value.value != [] && Trim(r.value.value) == r.value.value
    ensures r.Failure? ==> r.error.ssid == Trim(raw)
  {
    var ssid := Trim(raw);
    HiddenIffStripsToSpaces(ssid);
    var invalid := IsAllEscapes(ssid);
    assert invalid ==> IsHidden(ssid) by {
      if invalid {
        AllEscapesIsHidden(ssid);
      }
    }
    // RE_HIDDEN, then RE_INVALID, which never decides anything on its own.
    if IsHidden(ssid) || invalid then Success(None)
    else if HasEscape(ssid) then
      var cleaned := Trim(StripEscapes(ssid));
      if cleaned == [] then Failure(EmptyAfterCleaning(ssid))
      else
        TrimIdempotent(StripEscapes(ssid));
        Success(Some(cleaned))
    else if HasNonControl(ssid) then
      TrimIdempotent(raw);
      Success(Some(ssid))
    else
      Failure(NoKnownPattern(ssid))
  }
}
