# WiFi scan-text parser, modelled in Dafny

This project models the part of the scanner's WiFi adapter that turns scan output into access-point records. The output is the text of `iw dev wlan0 scan`, and each record is a `WifiBssid`:

- `fetch_wifi_stats` runs a loop over the lines of that text.
- `parse_ssid` classifies and cleans the text after `SSID:`. It uses the four patterns RE_HIDDEN, RE_INVALID, RE_ESCAPE and RE_VALID_UTF8.

The modules follow the program's structure:

- `Wrappers`: `Option`, `Result`, and a generic `Collect` and `Map`.
- `Text`: Unicode whitespace as `str::trim` and the regex class `\s` see it, and `str::lines()`.
- `Numeric`: the integer widths of the record's fields.
  - `parse::<u16>().unwrap_or(0)` and `parse::<u8>().ok()`.
  - The signal's `parse::<f64>() as i32`: truncation toward zero that saturates at the `i32` bounds.
  - The last-seen count times 1000, saturating at `u64::MAX`.
- `Ssid`: `parse_ssid`.
  - Each pattern is a predicate.
  - `replace_all` is a left-to-right deletion of escapes.
  - The two `panic!` paths become `Failure(EmptyAfterCleaning(..))` and `Failure(NoKnownPattern(..))`.
- `Patterns`: the eleven line patterns of the loop.
  - Anchored `^\s*` patterns are tried against the line with its leading whitespace removed.
  - The unanchored signal pattern takes the leftmost position where it succeeds.
- `ScanParser`: the loop as a state machine.
  - The state is the records pushed so far and the optional open record.
  - Each non-header line is classified into one `LineKind` and applied to the open record.
- `ScanBlocks`: a second, blockwise reading of the same loop, proved equal to it.
  - The text is cut into blocks, one per header line.
  - Each block's lines are folded into a fresh record.
  - From this follows what every field of every record ends up holding, and exactly when the parse fails.
- `ScanExamples`: a few concrete inputs pinned to their outcomes.

A few behaviours of the code are kept as written:

- Any later plain line resets the PHY class. Every in-block line that matches none of the five field patterns overwrites it, with `Legacy` when the line carries no capability banner. So a block's class is decided by its last such line, not by the presence of a banner. `ScanBlocks.BuildRecordFields` and `ScanExamples.LastPlainLineDecidesPhy` state this.
- The last-seen count is multiplied by 1000. The pattern matches "N ms", and the code multiplies N by 1000 before storing it as milliseconds. The model does the same, so "120 ms" gives 120000.
- The RE_INVALID branch of `parse_ssid` can never decide anything. Every string it accepts is already accepted by RE_HIDDEN, which is tried first. `Ssid.AllEscapesIsHidden` proves this.
- A `panic!` in `parse_ssid` ends the whole scan, so `ParseLines` returns the `Failure` of the first rejected SSID.

## Model

| member | source | states |
|---|---|---|
| Text.TrimStart | src/adapters/wifi.rs:39-43 | The `^\s*` prefix of an anchored pattern: the result is a suffix of the line, everything removed is whitespace, and it starts with no whitespace. |
| Text.Trim | src/adapters/wifi.rs:144 | `trim()`: the result is empty exactly when the input is all whitespace; otherwise it starts and ends with non-whitespace. |
| Text.TrimOfPadded | src/adapters/wifi.rs:144 | Trimming whitespace padding around any core that begins and ends with non-whitespace gives back exactly that core. |
| Text.TrimOfTrimmed | src/adapters/wifi.rs:160 | A string with no whitespace at either end is left unchanged by `trim()`. |
| Text.TrimIdempotent | src/adapters/wifi.rs:160 | Trimming twice is trimming once, so a cleaned SSID is a fixed point of `trim()`. |
| Text.LeadingDigits | src/adapters/wifi.rs:40-41 | What a greedy `\d+` consumes: a prefix of ASCII digits that no further digit follows. |
| Text.Lines | src/adapters/wifi.rs:54 | `lines()`: no line contains a line feed, and only empty text has no lines. |
| Text.LinesOfLineThen | src/adapters/wifi.rs:54 | The text up to the first line feed is the first line, with one trailing carriage return removed. |
| Text.LinesOfJoinedLf | src/adapters/wifi.rs:54 | Text written as "line\n" per line, plus an optional unterminated final piece, splits back into exactly those lines. |
| Text.LinesOfJoinedLfLines | src/adapters/wifi.rs:54 | Text written as "line\n" per line splits back into exactly those lines. |
| Text.LinesOfJoinedCrLf | src/adapters/wifi.rs:54 | Text written as "line\r\n" per line splits back into exactly those lines, even lines that end in a carriage return. |
| Numeric.DigitsValueOfRender | src/adapters/wifi.rs:80 | The value of the canonical decimal rendering of any number is that number. |
| Numeric.DigitsValueOfZeroPadded | src/adapters/wifi.rs:80 | Leading zeros do not change a digit run's value. |
| Numeric.ParseUnsigned | src/adapters/wifi.rs:80-86 | Parsing a digit run into a width succeeds exactly when the run's value fits that width, and then returns that value. |
| Numeric.ParseUnsignedOfRender | src/adapters/wifi.rs:80-86 | Unsigned parsing of any rendered number succeeds exactly when the number fits the width, and then returns the number. |
| Numeric.Frequency | src/adapters/wifi.rs:80 | `parse::<u16>().unwrap_or(0)`: the digits' value when it is at most 65535, and 0 when it is larger. |
| Numeric.Channel | src/adapters/wifi.rs:86 | `parse::<u8>().ok()`: `Some` exactly when the value is at most 255, and then that value. |
| Numeric.TruncateToI32 | src/adapters/wifi.rs:92 | The reading truncated toward zero, or `i32::MAX`/`i32::MIN` once its magnitude reaches that bound. |
| Numeric.WholeIsTruncation | src/adapters/wifi.rs:92 | The whole digits of a reading are the truncation of its exact value, whatever its fraction. |
| Numeric.AgeMs | src/adapters/wifi.rs:98-99 | The count times 1000 when that product fits in `u64`, and `u64::MAX` otherwise. |
| Ssid.StripEscapes | src/adapters/wifi.rs:160 | `replace_all` of RE_ESCAPE (`HasEscape`, the pattern found anywhere): unchanged when there is no escape; otherwise at least one four-character escape shorter. `Ssid.StripEscapesOfMatch` gives the match-by-match behaviour. |
| Ssid.StripEscapesOfMatch | src/adapters/wifi.rs:160 | `replace_all` works match by match: when an escape follows text holding no escape, that text is kept and the escape is deleted, and deletion continues after it. |
| Ssid.HiddenIffStripsToSpaces | src/adapters/wifi.rs:132-160 | RE_HIDDEN (`IsHidden`) accepts a string exactly when deleting its escapes leaves only ASCII spaces. |
| Ssid.AllEscapesIsHidden | src/adapters/wifi.rs:147-156 | Every string RE_INVALID accepts is accepted by RE_HIDDEN, so the second branch of `parse_ssid` is never taken. |
| Ssid.AllEscapesIffStripsToEmpty | src/adapters/wifi.rs:135 | RE_INVALID (`IsAllEscapes`) accepts a string exactly when it is non-empty and deleting its escapes leaves nothing. |
| Ssid.HiddenWithoutEscapeIsSpaces | src/adapters/wifi.rs:131-132 | A hidden SSID without escapes consists of ASCII spaces only. |
| Ssid.ParseSsid | src/adapters/wifi.rs:131-173 | RE_ESCAPE is `HasEscape` and RE_VALID_UTF8 is `HasNonControl`. `None` exactly for hidden SSIDs; the first panic exactly when cleaning leaves only whitespace, not all of it ASCII spaces; the second exactly for control-only text; otherwise the trimmed or cleaned name, which is non-empty and trimmed. |
| Patterns.MatchHeader | src/adapters/wifi.rs:38 | A header matches when the line starts with "BSS " and 17 address characters, which are captured. Anything else is rejected, with the reason. |
| Patterns.MatchHeaderOf | src/adapters/wifi.rs:38 | Every "BSS <address>" line gives its address, whatever text follows it. |
| Patterns.MatchIndentedDigits | src/adapters/wifi.rs:40-41 | After the indentation, the label followed by a digit matches, and the whole digit run is captured. |
| Patterns.TrimStartOfIndented | src/adapters/wifi.rs:39-43 | The indentation in front of a label is exactly what `^\s*` skips. |
| Patterns.LeadingDigitsOf | src/adapters/wifi.rs:40-41 | A greedy digit run stops exactly at the first non-digit. |
| Patterns.IndentedDigitsOf | src/adapters/wifi.rs:40-41 | Every indented "freq: N…" or "* primary channel: N…" line yields exactly N. |
| Patterns.MatchSsidField | src/adapters/wifi.rs:39 | After the indentation, a line starting "SSID:" matches unless the rest holds a line feed, and the rest is captured. |
| Patterns.SsidFieldOf | src/adapters/wifi.rs:39 | Every indented "SSID:<value>" line yields exactly the value. |
| Patterns.MatchLastSeen | src/adapters/wifi.rs:43 | The digits after "last seen: ", captured only when optional whitespace and "ms" follow them. |
| Patterns.LastSeenOf | src/adapters/wifi.rs:43 | Every indented "last seen: N<ws>ms…" line yields exactly N. |
| Patterns.SignalReading | src/adapters/wifi.rs:42 | Any reading the signal pattern captures is a well-formed decimal. `Patterns.SignalReadingShape` says what text it was read from. |
| Patterns.UnsignedReadingShape | src/adapters/wifi.rs:42 | An unsigned reading comes from text that starts with its digits, its optional fraction and " dBm". |
| Patterns.SignalReadingShape | src/adapters/wifi.rs:42 | A captured reading comes from text that starts with whitespace and then the reading written out: optional sign, digits, optional fraction, " dBm". |
| Patterns.SignalAt | src/adapters/wifi.rs:42 | An attempt at a position succeeds only where "signal:" starts there, and then yields a well-formed reading. |
| Patterns.SignalReadingOf | src/adapters/wifi.rs:42 | Every reading written as "-45 dBm" or "-45.5 dBm", after any whitespace, reads back as itself. |
| Patterns.UnsignedReadingOf | src/adapters/wifi.rs:42 | The digits, the optional fraction and " dBm" read back as the unsigned reading. |
| Patterns.SignalFrom | src/adapters/wifi.rs:42 | The first position at or after p where the signal pattern succeeds; none when it succeeds nowhere from p on. |
| Patterns.MatchSignal | src/adapters/wifi.rs:42 | The leftmost match in the line, with its reading; no match exactly when the pattern fails at every position. |
| Patterns.HasBanner | src/adapters/wifi.rs:45-49 | A banner is found only when, after whitespace, the line starts with the banner text. |
| Patterns.BannerOf | src/adapters/wifi.rs:45-49 | Conversely, a banner after any indentation is found, whatever follows it. |
| Patterns.BannersExclusive | src/adapters/wifi.rs:45-49 | No line carries two capability banners, so the order of the banner tests never matters. |
| Patterns.AnchoredFieldsExclusive | src/adapters/wifi.rs:39-43 | The four anchored field patterns never match the same line. |
| ScanParser.Fresh | src/adapters/wifi.rs:62-70 | A header opens a record that carries its address, with no SSID, no age, no channel, frequency 0, class `Legacy` and rssi 0. |
| ScanParser.BannerPhy | src/adapters/wifi.rs:104-116 | Each class exactly when its banner is present, and `Legacy` exactly when none is. |
| ScanParser.Classify | src/adapters/wifi.rs:73-101 | Each kind exactly when its pattern is the first of the five that matches, with that pattern's capture; otherwise the banner class. |
| ScanParser.Apply | src/adapters/wifi.rs:73-116 | A line writes only the field of its kind, with that field's conversion, and fails exactly on an SSID `parse_ssid` rejects. |
| ScanParser.Step | src/adapters/wifi.rs:55-117 | One iteration fails exactly on a non-header line, inside an open record, whose SSID `parse_ssid` rejects. A header pushes the open record and opens a fresh one for its address. Any other line keeps the pushed records and the open record's address. |
| ScanParser.Headers | src/adapters/wifi.rs:55-64 | The addresses captured from the header lines are all 17-character address texts. |
| ScanParser.Run | src/adapters/wifi.rs:54-122 | On success, the records' addresses are those of the records already pushed, followed by one per remaining header, in order. |
| ScanParser.ParseLines | src/adapters/wifi.rs:51-122 | On success, one record per header line, in order, each carrying that header's address. |
| ScanParser.ParseScan | src/adapters/wifi.rs:51-122 | On success, one record for each header line of `stdout.lines()`, in order, each carrying that header's address. |
| ScanParser.ParseScanOfLines | src/adapters/wifi.rs:54 | Parsing "\n"-terminated text is parsing its lines. |
| ScanParser.ParseScanOfCrLfLines | src/adapters/wifi.rs:54 | Parsing "\r\n"-terminated text is parsing its lines. |
| ScanBlocks.BodyLength | src/adapters/wifi.rs:55-71 | The lines an open record absorbs: the longest prefix without a header line. |
| ScanBlocks.HeadersSkip | src/adapters/wifi.rs:55 | Lines that are not headers capture no address. |
| ScanBlocks.SplitBlocks | src/adapters/wifi.rs:55-71 | One block per header line, in order, each with that header's address and a body that holds no header. |
| ScanBlocks.SplitBlocksJoined | src/adapters/wifi.rs:55-71 | Cutting loses and reorders no line: the lines before the first header, followed by each block's header and body, are the input. |
| ScanBlocks.SplitBlocksHeaders | src/adapters/wifi.rs:55 | Each block's header line captures that block's address. |
| ScanBlocks.SplitBlocksSkip | src/adapters/wifi.rs:71 | Lines before the first header belong to no block. |
| ScanBlocks.KindsOf | src/adapters/wifi.rs:73-116 | The classification of every line of a block, in order. |
| ScanBlocks.Fold | src/adapters/wifi.rs:73-116 | Applying a block's lines never changes the record's address. |
| ScanBlocks.BuildRecord | src/adapters/wifi.rs:71-116 | Folding a block's lines into its record never changes the record's address. |
| ScanBlocks.BuildRecordIsFold | src/adapters/wifi.rs:73-116 | Folding the lines is folding their classifications. |
| ScanBlocks.BuildAllBlockwise | src/adapters/wifi.rs:57-59 | Record i is block i's record; the whole parse fails exactly when some block fails, with the first failing block's error. |
| ScanBlocks.RunIdle | src/adapters/wifi.rs:54-71 | With no open record, the loop yields the pushed records followed by the blockwise reading of the remaining lines. |
| ScanBlocks.RunOpen | src/adapters/wifi.rs:54-122 | An open record absorbs the lines up to the next header, is pushed, and the rest reads blockwise. |
| ScanBlocks.ParseLinesIsBlockwise | src/adapters/wifi.rs:51-122 | The line loop computes exactly the blockwise reading. |
| ScanBlocks.ParseLinesRecords | src/adapters/wifi.rs:55-70 | Record i is block i's body folded into a fresh record that carries header i's address. |
| ScanBlocks.PreambleIgnored | src/adapters/wifi.rs:71 | Lines before the first header change nothing in the result. |
| ScanBlocks.LastOfKind | src/adapters/wifi.rs:73-116 | The index of the last line kind that writes a given field, or none when no kind writes it. |
| ScanBlocks.FoldSnoc | src/adapters/wifi.rs:54-117 | Folding one more line is applying it to the record folded so far. |
| ScanBlocks.LastOfKindSnoc | src/adapters/wifi.rs:73-116 | A line appended at the end becomes the last writer of its own field, and leaves the last writers of other fields as they were. |
| ScanBlocks.ApplyField | src/adapters/wifi.rs:73-101 | A line writes what its kind writes into its own field and keeps every other field. |
| ScanBlocks.FoldField | src/adapters/wifi.rs:73-116 | After a fold, each field holds what the last line of its kind wrote, or its starting value when no line of that kind occurs. |
| ScanBlocks.BuildRecordFields | src/adapters/wifi.rs:73-116 | The same for a block's lines; in particular the PHY class comes from the last line that matched no field pattern. |
| ScanBlocks.ParsedFields | src/adapters/wifi.rs:62-116 | In a successful parse, field t of record i is what the last line of its kind in block i wrote, and otherwise the header's default. |
| ScanBlocks.FoldFails | src/adapters/wifi.rs:73-75 | A fold fails exactly when one of its lines is an SSID that `parse_ssid` rejects. |
| ScanBlocks.BuildRecordFails | src/adapters/wifi.rs:73-75 | A block fails exactly when one of its SSID lines is rejected. |
| ScanBlocks.ParseLinesFails | src/adapters/wifi.rs:73-75 | The parse fails exactly when an SSID line inside some block is rejected; lines outside every block are never looked at. |
| ScanExamples.EmptySsidIsHidden | src/adapters/wifi.rs:147-149 | An empty SSID is hidden. |
| ScanExamples.TabBetweenEscapesAborts | src/adapters/wifi.rs:159-163 | Two escapes with a tab between them clean to nothing, and the scan aborts. |
| ScanExamples.TabBetweenEscapesShape | src/adapters/wifi.rs:144-160 | That SSID is already trimmed, carries an escape, is not hidden, and deleting its escapes leaves a single tab. |
| ScanExamples.GuestNetCleaned | src/adapters/wifi.rs:159-164 | "Guest\x00Net" is cleaned to "GuestNet". |
| ScanExamples.CleanedAroundEscape | src/adapters/wifi.rs:143-164 | Text with one escape between two parts that hold no backslash and have no whitespace at the outer ends is cleaned to the two parts joined. |
| ScanExamples.ControlOnlyAborts | src/adapters/wifi.rs:167-172 | An SSID of one control character that `trim()` keeps (here U+0001) matches no pattern, so `parse_ssid` fails. A lone tab, line feed, vertical tab, form feed or carriage return trims to "" instead and is hidden. |
| ScanExamples.WhitespaceOnlyIsHidden | src/adapters/wifi.rs:144-149 | An SSID of whitespace only, control characters such as tab included, trims to "" and is hidden. |
| ScanExamples.LoneTabIsHidden | src/adapters/wifi.rs:144-149 | A lone tab is hidden, not rejected. |
| ScanExamples.LastPlainLineDecidesPhy | src/adapters/wifi.rs:103-116 | After an HT banner, a frequency line and then a plain line, the block's class is `Legacy` and its frequency is the one the frequency line wrote. |
| ScanExamples.PlainLineAfterBannerIsLegacy | src/adapters/wifi.rs:73-116 | An indented HT banner, then an indented "freq: N" and then an indented plain line: the record gets frequency N and class `Legacy`. |
| ScanExamples.BannerFreqPlainBlock | src/adapters/wifi.rs:103-116 | The same over lines already classified as banner, frequency and plain. |
| ScanExamples.ClassifyHtBanner | src/adapters/wifi.rs:103-116 | An indented "HT capabilities:" line matches no field and has class `HT`. |
| ScanExamples.ClassifyPlain | src/adapters/wifi.rs:103-116 | An indented "plain" line matches no field and carries no banner. |
| ScanExamples.ClassifyFreq | src/adapters/wifi.rs:78-81 | An indented "freq: N" line is a frequency line with the digits N. |

## Left out

- Running `sudo iw dev wlan0 scan` is not modelled: the command, its `expect` on failure, and `String::from_utf8_lossy`. The parser's input is the already decoded text.
- The `println!` progress and skip messages carry no result and are omitted.
- `Regex` compilation, `once_cell` laziness and the `Serialize` derives are not modelled. The patterns are predicates.
- The Bluetooth adapters, configuration, mDNS, entry point and web script are not part of this model. Payload assembly, submission and beacons are handled outside src/adapters/wifi.rs and are not modelled either.
- Numeric.TruncateToI32: truncates the exact decimal value. `f64` rounds readings with more than about 15 significant digits before the cast, and that rounding is not modelled.
- Numeric.AgeMs: multiplies exactly. The source's `f64` product rounds counts above 2^53 / 1000 before the saturating cast, and that rounding is not modelled.
- Patterns.MatchIndentedDigits: `\d` is modelled as the ASCII digits only. The regex crate's `\d` also matches the other Unicode decimal digits, and Rust's `parse` rejects them. The two readings part in two ways:
  - When the run after "freq: " or "* primary channel: " starts with a non-ASCII digit, as in "freq: ٢4", the source still matches the line. Its failed `parse` writes frequency 0 or channel `None`, and the PHY class is kept. The model's pattern fails there. The line falls through to the later patterns and, when none matches, to the plain-line case, which resets the PHY class.
  - When the run starts with ASCII digits and continues with non-ASCII ones, as in "freq: 24٣7", the source captures the whole run and `parse` fails, so it writes frequency 0 or channel `None`. The model captures the ASCII prefix "24" and writes 24.
- Patterns.MatchLastSeen: `\d` is ASCII-only here too. The source's digit run must be followed by optional whitespace and "ms". So when that run holds any non-ASCII digit, as in "last seen: 12٣ ms", the source matches the line. Its failed `parse::<f64>` stores the age `Some(0)`, and the PHY class is kept. The model's pattern fails on that line. The line then falls through to the plain-line case, which resets the PHY class. No ASCII prefix is ever captured on its own.
- Patterns.SignalReading: `\d` is ASCII-only here too. The source's reading must be followed by " dBm". So when the reading's digits hold any non-ASCII digit, as in "signal: -4٥ dBm", the source matches the line. Its failed `parse::<f64>` stores rssi 0, and the PHY class is kept. The model's attempt at that position fails. Unless a later position on the line matches, the line falls through to the later patterns and, when none matches, to the plain-line case, which resets the PHY class.
