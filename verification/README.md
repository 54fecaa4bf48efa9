# streamdeck-battery: battery telemetry readers in Dafny

This project models the three battery readers of the streamdeck-battery
Stream Deck plugin. Each reader turns a vendor's local telemetry into a
cache from device name to its latest battery record.

- **Razer Synapse** (`synapse.dfy`) reads the Synapse 3 text log. A line
  holding `INFO 1 Battery Get By Device Handle` opens a block. The next line
  carries the device name after its last colon. The field lines that follow
  are read up to the first `Battery State:` line, and the last
  `Battery Percentage:` value on the way is kept. Each complete block is
  upserted under its device name. A broken block (a short or unparsable
  timestamp, a bad number, a line cut short, the log ending inside a block)
  aborts the pass, keeping what was stored before it.
- **Logitech G HUB** (`ghub.dfy`) reads the properties of the settings JSON
  object. A key counts when it contains `battery`, splits on `/` into exactly
  three segments, and ends in `percentage` or `warning`. The middle segment
  names the device. A percentage entry always overwrites. A warning entry is
  stored only for a device not yet in the cache. A value that cannot be
  converted aborts the pass. Every refresh rebuilds the cache from empty.
- **Corsair iCUE** (`icue.dfy`) reads tray button titles. A title counts
  when it holds one of `Battery Status:`, `Battery Level` or
  `Battery Status`, tried in that order. It must also contain a registered
  device name, and the name matched is the first registered one that occurs
  in the lower-cased title. The battery level is the text after the last
  occurrence of the prefix, with every `%` removed and white space trimmed.
  A number counts as itself. A known word (charging, full, high, medium,
  low, critical, unknown) maps to a fixed percentage. Any other text gives 0,
  and the record is still stored.

The supporting modules:
- `base.dfy`: `Option`, which stands for a C# `null`, and `Pass`, a refresh
  that completed or was aborted by an exception, holding the cache either
  way.
- `text.dfy`: the .NET string operations the readers call, restricted to
  ASCII.
- `int32.dfy`: `Int32.TryParse` and `Convert.ToInt32`, which accept the same
  texts, and their inverse `ToString`.
- `stats.dfy`: the three record types and the lookup shared by every
  `GetBatteryStats`.

The external sources the readers depend on become inputs:
- the Synapse log file is `Option<seq<string>>`, `None` when the file is
  missing;
- `DateTime.Parse` is a caller-supplied predicate;
- the G HUB settings object is `Option` of its property list;
- the iCUE tray scan is `Option` of the list of titles.

Behaviour worth noting, as the code has it:
- the Synapse device name is not trimmed: it is the rest of the line starting
  two characters after its last colon;
- a G HUB key that does not contain `battery` is filtered out, whatever its
  shape;
- an unknown iCUE level word yields a record with percentage 0, not a
  missing record;
- when the G HUB settings file is missing, the refresh does not return
  early: it stops the timer and still attempts the read.

## Model

| member | source | states |
|---|---|---|
| Text.ToLower | streamdeck-battery/Internal/ICueReader.cs:123 | `ToLowerInvariant` keeps the length, lowers every letter in place and leaves no upper-case letter |
| Text.ToLowerFixedIff | streamdeck-battery/Internal/ICueReader.cs:79-80 | lower-casing leaves a string unchanged exactly when it has no upper-case letter |
| Text.ToLowerIdempotent | streamdeck-battery/Internal/ICueReader.cs:68 | lower-casing twice is lower-casing once |
| Text.Contains | streamdeck-battery/Internal/SynapseBatteryReader.cs:144 | ordinal `String.Contains`: the pattern occurs at some position of the text; every filter of the three readers is stated with it |
| Text.ContainsSameLength | streamdeck-battery/Internal/ICueReader.cs:80 | a string contains a string of its own length only when the two are equal |
| Text.LastIndexOf | streamdeck-battery/Internal/SynapseBatteryReader.cs:149 | the index found is an occurrence with no occurrence after it; there is none exactly when the pattern does not occur |
| Text.FirstContainedIn | streamdeck-battery/Internal/ICueReader.cs:114 | the first candidate the text contains, no earlier one contained; none exactly when no candidate is contained |
| Text.Trim | streamdeck-battery/Internal/ICueReader.cs:130 | `String.Trim`, white space removed from the start and then the end; its characterisation is `Text.TrimSpec` |
| Text.TrimSpec | streamdeck-battery/Internal/ICueReader.cs:130 | `Trim` yields a slice of the input with non-blank ends, everything cut off being white space |
| Text.TrimNoop | streamdeck-battery/Internal/ICueReader.cs:130 | a string with non-blank ends is its own trim |
| Text.TrimKeeps | streamdeck-battery/Internal/ICueReader.cs:130 | trimming only removes characters: every character of the result, with its count, is in the input |
| Text.TrimFree | streamdeck-battery/Internal/ICueReader.cs:130 | trimming a text without some character leaves it without that character |
| Text.TrimPadded | streamdeck-battery/Internal/ICueReader.cs:130 | white space around a text with non-blank ends is exactly what `Trim` removes |
| Text.RemoveChar | streamdeck-battery/Internal/ICueReader.cs:130 | `Replace("%", "")` leaves no `%` and keeps every other character with its count |
| Text.RemoveCharAppend | streamdeck-battery/Internal/ICueReader.cs:130 | removal works piece by piece over a concatenation, so the kept characters stay in their order |
| Text.RemoveCharFree | streamdeck-battery/Internal/ICueReader.cs:130 | a text without the character is left unchanged |
| Text.Split | streamdeck-battery/Internal/GHubReader.cs:117 | `Split('/')` gives separator-free segments, one more than there are separators, that join back to the input |
| Text.SplitJoin | streamdeck-battery/Internal/GHubReader.cs:117-121 | splitting a join of separator-free segments gives the segments back |
| Int32Text.ParseSigned | streamdeck-battery/Internal/ICueReader.cs:145 | the `Int32` number grammar once white space is gone: an optional sign and at least one digit, accepted only inside the 32-bit range |
| Int32Text.ParseInt32 | streamdeck-battery/Internal/ICueReader.cs:145 | a parsed number lies in the 32-bit range |
| Int32Text.FormatNatValue | streamdeck-battery/Internal/ICueReader.cs:145-148 | the printed digits of a natural number have that number as their value |
| Int32Text.ParseFormat | streamdeck-battery/Internal/ICueReader.cs:145-148 | a printed integer parses back to itself exactly when it fits in 32 bits, and is rejected otherwise |
| Int32Text.ParseFormatRoundTrip | streamdeck-battery/Internal/ICueReader.cs:145-148 | every 32-bit integer, printed, parses back to itself |
| Int32Text.ParseSignedDigits | streamdeck-battery/Internal/ICueReader.cs:145 | an optional sign and digits parse to the signed value of the digits when it fits in 32 bits, and fail otherwise |
| Int32Text.ZerosThenNumber | streamdeck-battery/Internal/ICueReader.cs:145 | leading zeros before printed digits keep the value |
| Int32Text.ParseSignedZeros | streamdeck-battery/Internal/ICueReader.cs:145 | a sign, leading zeros and digits parse to the signed value of the digits, and fail when it does not fit in 32 bits |
| Int32Text.ParsePadded | streamdeck-battery/Internal/ICueReader.cs:145 | with surrounding white space, an optional `+` or `-` and leading zeros, a numeral parses to its signed value when that fits in 32 bits and is rejected otherwise |
| Int32Text.ParseSignedShape | streamdeck-battery/Internal/ICueReader.cs:145 | once white space is gone, only an optional sign followed by at least one digit parses, and it parses to the signed value of the digits |
| Int32Text.ParseInt32Shape | streamdeck-battery/Internal/ICueReader.cs:145 | only white space, an optional sign, at least one digit and white space, in that order, parse, and the result is the signed value of the digits |
| Int32Text.BlankDoesNotParse | streamdeck-battery/Internal/ICueReader.cs:145 | the empty text and text of white space alone are not numbers |
| Int32Text.FormatOutOfRange | streamdeck-battery/Internal/SynapseBatteryReader.cs:162 | a printed integer outside the 32-bit range is rejected, the overflow on which `Convert.ToInt32` throws |
| BatteryStats.Lookup | streamdeck-battery/Internal/SynapseBatteryReader.cs:77-85 | a record is found exactly when the key is present, and it is the stored one |
| Synapse.AfterLastColon | streamdeck-battery/Internal/SynapseBatteryReader.cs:149 | the text after the last colon and one more character, never as long as the line; `None` where `Substring` throws |
| Synapse.AfterLastColonSpec | streamdeck-battery/Internal/SynapseBatteryReader.cs:149 | the value is the colon-free suffix after the last colon and one more character; it fails exactly on an empty line or one ending in a colon |
| Synapse.PercentValue | streamdeck-battery/Internal/SynapseBatteryReader.cs:162 | a percentage read from a line fits in an `int` |
| Synapse.ScanFields | streamdeck-battery/Internal/SynapseBatteryReader.cs:156-170 | the inner field loop reads at least one and at most all of the remaining lines; `None` for running out of lines or a bad value |
| Synapse.ScanFieldsStopsAtState | streamdeck-battery/Internal/SynapseBatteryReader.cs:156-170 | the field loop ends at the first state line and takes the charging state from it |
| Synapse.ScanFieldsPercentagesParse | streamdeck-battery/Internal/SynapseBatteryReader.cs:160-163 | every percentage line a successful field loop read held a valid number |
| Synapse.ScanFieldsPercentage | streamdeck-battery/Internal/SynapseBatteryReader.cs:160-163 | the percentage reported is the last one in the lines read, taken from the end, or the starting value when there was none |
| Synapse.ScanFieldsSucceedsIff | streamdeck-battery/Internal/SynapseBatteryReader.cs:156-170 | the field loop succeeds exactly when some line is the first state line, has a value, and every percentage line up to it parses |
| Synapse.ScanFieldsPrefix | streamdeck-battery/Internal/SynapseBatteryReader.cs:156-170 | lines after a finished field run are never read |
| Synapse.ParseRecord | streamdeck-battery/Internal/SynapseBatteryReader.cs:144-170 | one block read from its sentinel line: it uses the name line and at least one field line, and is `None` where the source throws |
| Synapse.ParseRecordState | streamdeck-battery/Internal/SynapseBatteryReader.cs:165-169 | the block's state is the value of the first state line after the name line |
| Synapse.ParseRecordPercentage | streamdeck-battery/Internal/SynapseBatteryReader.cs:160-163 | the block's percentage is the last one before the state line, or 0 |
| Synapse.ParseRecordFailsIff | streamdeck-battery/Internal/SynapseBatteryReader.cs:146-170 | a block fails exactly when the timestamp is short or rejected, the name line is missing, empty, or ends in a colon, or no well-formed field run follows |
| Synapse.AfterColonSpace | streamdeck-battery/Internal/SynapseBatteryReader.cs:149 | a `Key: value` line whose value has no colon yields exactly the value, whatever the key |
| Synapse.PercentLineValue | streamdeck-battery/Internal/SynapseBatteryReader.cs:160-162 | a `Battery Percentage:` line printing a 32-bit number is a percentage line, not a state line, and reads as that number |
| Synapse.StateLineValue | streamdeck-battery/Internal/SynapseBatteryReader.cs:165-167 | a `Battery State:` line is a state line, not a percentage line, and carries its colon-free state |
| Synapse.ScanFieldsSkips | streamdeck-battery/Internal/SynapseBatteryReader.cs:157-170 | lines that are neither percentage nor state lines are read past without changing what the field loop yields |
| Synapse.ScanWellFormedFields | streamdeck-battery/Internal/SynapseBatteryReader.cs:157-170 | a percentage line printing `n` followed by a state line ends the field loop with `n` and that state |
| Synapse.ParseWellFormedBlock | streamdeck-battery/Internal/SynapseBatteryReader.cs:144-170 | a block laid out as in the log (name line, other field lines, percentage, state) parses to a record with that name, percentage and state, using all its lines |
| Synapse.ParseLinesWellFormedBlock | streamdeck-battery/Internal/SynapseBatteryReader.cs:123-173 | the read loop over a sentinel line and such a block completes and stores that record under its device name |
| Synapse.ParseRecordPrefix | streamdeck-battery/Internal/SynapseBatteryReader.cs:144-172 | a block parses the same whatever lines follow it |
| Synapse.ParseLines | streamdeck-battery/Internal/SynapseBatteryReader.cs:123-174 | a pass never removes a device |
| Synapse.ParseLinesKeyed | streamdeck-battery/Internal/SynapseBatteryReader.cs:151-172 | every entry a pass writes is keyed by its own device name |
| Synapse.ParseLinesQuiet | streamdeck-battery/Internal/SynapseBatteryReader.cs:123-144 | a pass over lines without a sentinel completes and changes nothing |
| Synapse.ParseOverlay | streamdeck-battery/Internal/SynapseBatteryReader.cs:123-174 | what a pass writes does not depend on the cache it starts from |
| Synapse.ParseSequential | streamdeck-battery/Internal/SynapseBatteryReader.cs:123-174 | after a completed read, later lines continue from the cache it left |
| Synapse.LaterBlockWins | streamdeck-battery/Internal/SynapseBatteryReader.cs:172 | after a completed read, a later read lays the records it finds over the cache the first left, so it decides every device it mentions |
| Synapse.BrokenBlockKeepsEarlier | streamdeck-battery/Internal/SynapseBatteryReader.cs:144-184 | a broken block after a completed stretch of the log aborts the pass, and the records that stretch stored remain |
| Synapse.Drop | streamdeck-battery/Internal/SynapseBatteryReader.cs:119 | seeking to an offset reads the lines after it, and nothing past the end |
| Synapse.RefreshStats | streamdeck-battery/Internal/SynapseBatteryReader.cs:97-116 | as written, every refresh leaves the cache unchanged |
| Synapse.RefreshTracked | streamdeck-battery/Internal/SynapseBatteryReader.cs:110-119 | with the offset kept, a refresh lays the unread lines' blocks over the cache and advances the offset to the end only when the pass completed |
| Synapse.RefreshTrackedIdempotent | streamdeck-battery/Internal/SynapseBatteryReader.cs:110-116 | refreshing twice against the same log gives the cache one refresh gives |
| Synapse.RefreshIgnoresAppendedBlock | streamdeck-battery/Internal/SynapseBatteryReader.cs:110-116 | for a log grown by a complete block, the corrected refresh stores the device and the refresh as written does not |
| Synapse.GetBatteryStats | streamdeck-battery/Internal/SynapseBatteryReader.cs:77-85 | the record stored under exactly this name, or none |
| Synapse.GetAllDevices | streamdeck-battery/Internal/SynapseBatteryReader.cs:67-75 | as written, the listing is the cache's keys and the cache is untouched |
| Synapse.GetAllDevicesTracked | streamdeck-battery/Internal/SynapseBatteryReader.cs:67-75 | with the offset kept, an empty cache is filled from the unread lines and the listing is its keys |
| Synapse.ListedIffFound | streamdeck-battery/Internal/SynapseBatteryReader.cs:67-85 | a device is listed exactly when a lookup finds it |
| GHub.IsBatteryName | streamdeck-battery/Internal/GHubReader.cs:114 | the `Contains("battery")` property filter, case-sensitive; `GHub.ClassifyShape` and `GHub.ClassifyJoin` state what passes it |
| GHub.Classify | streamdeck-battery/Internal/GHubReader.cs:114-126 | a qualifying key contains `battery` and names a slash-free device |
| GHub.ClassifyShape | streamdeck-battery/Internal/GHubReader.cs:114-126 | a qualifying key is `<prefix>/<device>/<section>` |
| GHub.ClassifyJoin | streamdeck-battery/Internal/GHubReader.cs:114-126 | every such key mentioning `battery` qualifies, with its middle segment as the device |
| GHub.Step | streamdeck-battery/Internal/GHubReader.cs:127-134 | one property never removes a device |
| GHub.ApplyAll | streamdeck-battery/Internal/GHubReader.cs:115-135 | the loop never removes a device |
| GHub.ApplyAllAbortsIff | streamdeck-battery/Internal/GHubReader.cs:127-141 | the loop aborts exactly when a qualifying property's value cannot be converted |
| GHub.ApplyAllSequential | streamdeck-battery/Internal/GHubReader.cs:115-135 | running over two runs of properties is running over the first, then the second unless the first aborted |
| GHub.ApplyAllPrecedence | streamdeck-battery/Internal/GHubReader.cs:129-134 | a completed loop stores, per device, its last percentage entry, else the entry already there, else its first warning entry |
| GHub.DevicesIff | streamdeck-battery/Internal/GHubReader.cs:114-126 | a device is among the qualifying devices exactly when some qualifying key names it |
| GHub.ApplyAllKeys | streamdeck-battery/Internal/GHubReader.cs:114-134 | a completed loop adds exactly the devices of the qualifying keys |
| GHub.RefreshStats | streamdeck-battery/Internal/GHubReader.cs:96-142 | an unreadable object gives an empty cache; a completed refresh holds exactly the qualifying devices; it aborts exactly on an unconvertible qualifying value |
| GHub.RefreshPrecedence | streamdeck-battery/Internal/GHubReader.cs:129-134 | after a completed refresh each device holds its last percentage entry, or its first warning entry when it has none |
| GHub.PercentageBeatsWarning | streamdeck-battery/Internal/GHubReader.cs:129-134 | for one device with both entries, the percentage entry is stored whichever comes first |
| GHub.GetBatteryStats | streamdeck-battery/Internal/GHubReader.cs:76-84 | the entry stored under exactly this device, or none |
| GHub.GetAllDevices | streamdeck-battery/Internal/GHubReader.cs:67-74 | an empty cache is refreshed first; the listing is the cache's keys, the qualifying devices after a completed refresh |
| GHub.ListedIffFound | streamdeck-battery/Internal/GHubReader.cs:67-84 | a device is listed exactly when a lookup finds it |
| ICue.CalculatePercentage | streamdeck-battery/Internal/ICueReader.cs:142-169 | a number is its own percentage; any other text gives a value from 0 to 100 |
| ICue.CalculatePercentageTable | streamdeck-battery/Internal/ICueReader.cs:150-167 | non-numeric text is looked up, lower-cased, in the word table, and gives 0 when absent |
| ICue.BlankLevelIsZero | streamdeck-battery/Internal/ICueReader.cs:145-167 | an empty or blank level is neither a number nor a known word, so it counts as 0 |
| ICue.CalculatePercentageRoundTrip | streamdeck-battery/Internal/ICueReader.cs:145-148 | every printed 32-bit number is its own percentage |
| ICue.ParsedChars | streamdeck-battery/Internal/ICueReader.cs:145 | text that parses as a number holds only white space, a sign and digits |
| ICue.CalculatePercentageIgnoresCase | streamdeck-battery/Internal/ICueReader.cs:145-150 | the percentage does not depend on letter case |
| ICue.ChoosePrefix | streamdeck-battery/Internal/ICueReader.cs:114-119 | the first prefix in list order that the title contains; none exactly when it contains none |
| ICue.MatchDevice | streamdeck-battery/Internal/ICueReader.cs:123-126 | the first registered name inside the lower-cased title, unless that name is empty |
| ICue.StripTrimSpec | streamdeck-battery/Internal/ICueReader.cs:130 | stripping `%` and trimming leaves no `%` and no white space at either end |
| ICue.StripTrimShrinks | streamdeck-battery/Internal/ICueReader.cs:130 | stripping and trimming keeps only characters of the input |
| ICue.LevelText | streamdeck-battery/Internal/ICueReader.cs:128-130 | the battery level: after the last occurrence of the prefix, `%` removed, trimmed; its characterisation is `ICue.LevelTextSpec` |
| ICue.LevelTextSpec | streamdeck-battery/Internal/ICueReader.cs:128-130 | the level is a slice, with non-blank ends and only white space cut off, of the text after the last occurrence of the prefix with every `%` removed |
| ICue.LastPrefixAt | streamdeck-battery/Internal/ICueReader.cs:128 | the last occurrence of the prefix is the one followed by no other, and the level is cut right after it |
| ICue.StripNumber | streamdeck-battery/Internal/ICueReader.cs:130 | white space, a printed number and `%`, stripped and trimmed, leave the number's text |
| ICue.LevelTextOfNumber | streamdeck-battery/Internal/ICueReader.cs:128-130 | a title ending in the prefix, white space, a printed number and `%` has that number's text as its level |
| ICue.ReadingOfNumber | streamdeck-battery/Internal/ICueReader.cs:114-131 | such a title, naming a registered device, is read as a record whose percentage is the number printed |
| ICue.Reading | streamdeck-battery/Internal/ICueReader.cs:114-131 | a record is stored under a non-empty name and keeps the title |
| ICue.Observe | streamdeck-battery/Internal/ICueReader.cs:112-133 | one title changes at most the entry of the device it reads as |
| ICue.ApplyTitlesSequential | streamdeck-battery/Internal/ICueReader.cs:112-133 | scanning two runs of titles is scanning the first, then the second |
| ICue.ApplyTitles | streamdeck-battery/Internal/ICueReader.cs:112-133 | the loop over the tray titles never removes a device |
| ICue.ApplyTitlesLastWins | streamdeck-battery/Internal/ICueReader.cs:112-133 | after a scan each device holds the record of the last title naming it, or its old entry |
| ICue.ApplyTitlesConsistent | streamdeck-battery/Internal/ICueReader.cs:123-131 | the loop keeps every entry under a non-empty registered name found in its title |
| ICue.RefreshStats | streamdeck-battery/Internal/ICueReader.cs:98-140 | nothing happens with no names registered or a failed scan; names are unchanged and no device is removed |
| ICue.RefreshLastWins | streamdeck-battery/Internal/ICueReader.cs:98-133 | with a name registered and a successful scan, each device holds the record of the last title naming it, or its old entry |
| ICue.RefreshConsistent | streamdeck-battery/Internal/ICueReader.cs:98-140 | a refresh keeps the cache consistent with the registered names |
| ICue.GetBatteryStats | streamdeck-battery/Internal/ICueReader.cs:66-75 | the query is lower-cased before the lookup |
| ICue.GetBatteryStatsIgnoresCase | streamdeck-battery/Internal/ICueReader.cs:66-75 | queries differing only in case get the same answer; on a consistent reader a found device is registered |
| ICue.RegisterDeviceName | streamdeck-battery/Internal/ICueReader.cs:77-87 | always accepts, and the names stay as they were or gain the lower-cased name at the end |
| ICue.RegisterAddsIffUpper | streamdeck-battery/Internal/ICueReader.cs:79-84 | as written, a name is appended exactly when it has an upper-case letter; an all-lower-case name changes nothing |
| ICue.RegisterConsistent | streamdeck-battery/Internal/ICueReader.cs:77-87 | registration keeps the reader consistent |
| ICue.LowerCaseNameIgnored | streamdeck-battery/Internal/ICueReader.cs:80 | an unregistered all-lower-case name stays unregistered after it is registered |
| ICue.RegisterDeviceNameOnce | streamdeck-battery/Internal/ICueReader.cs:77-87 | the corrected registration always registers the name, once, and keeps the list free of duplicates |
| ICue.RegisterOnceIdempotent | streamdeck-battery/Internal/ICueReader.cs:77-87 | registering a name again, in any case, changes nothing |

## Left out

- File access, `StreamReader` buffering and `FileShare` are not modelled. The Synapse log is the list of its lines. Offsets count whole lines rather than bytes, which assumes the log only grows by whole lines.
- `DateTime.Parse` is a parameter. `UpdateDate` keeps the 24-character timestamp text instead of a parsed date.
- Singletons with double-checked locking, `System.Timers.Timer`, and the timer stop on errors (G HUB lines 104 and 140, iCUE line 138) are concurrency and scheduling concerns. So is `ConcurrentDictionary`. The caches are plain maps.
- Logging is left out.
- `GHubReader.ReadSettingsDB` (SQLite and `JObject.Parse`) is an input: the decoded property list, or `None` when it returns `null`.
- `ToObject` is modelled only as succeeding with a record or throwing. A JSON `null` value, for which it returns `null` and a `null` entry is stored, is not modelled.
- `ToolbarScanner.ScanToolbarButtons` (Win32 and UI Automation) and `ExtensionMethods` are foreign code. The scan is an input. A `null` title inside the list is not modelled.
- The Stream Deck actions, `Program.cs` and the property inspector are the display and wiring layers and are not part of this model.
- The `dicBatteryStats == null` tests are not modelled, because every cache is created before it is read.
- GHub.GetBatteryStats: the `double` percentages of `GHubBatteryStats` and `ICueBatteryStats` are integers here. Fractional G HUB percentages are not modelled.
- Synapse.RefreshStats: one refresh sees the log as a single snapshot. Growth between the two length reads at lines 110 and 113, which would take the seek path, is not modelled.
- Text.ToLower: `ToLowerInvariant` and `Trim` are ASCII-only. Unicode case mapping and the Unicode white-space set are not modelled.
- Text.LastIndexOf: iCUE's `title.LastIndexOf(prefix)` is culture-sensitive in .NET. It is modelled as ordinal, as `Contains` is.
- Int32Text.ParseInt32: the `NumberStyles.Integer` grammar is modelled with ASCII white space and `+`/`-` signs. Trailing NUL characters, which .NET also accepts, and culture-specific sign symbols are not modelled.

## Findings

| source | as written | input that shows it | evidently intended | confidence | as-written member | corrected member |
|---|---|---|---|---|---|---|
| streamdeck-battery/Internal/SynapseBatteryReader.cs:110-116 | `lastMaxOffset` is a local variable set to the stream length one line before it is compared with the length read again, so the idle branch returns unless the file grows between those two reads; a block appended between refreshes is not read | a log that has grown by a complete battery block since the previous refresh | the offset is kept between refreshes: lines after it are parsed, and it moves to the end of the file after a completed pass | high, not executed | Synapse.RefreshStats, Synapse.RefreshIgnoresAppendedBlock | Synapse.RefreshTracked |
| streamdeck-battery/Internal/ICueReader.cs:80 | the guard tests `deviceName.Contains(device)`, whether the given name contains its own lower-case form, instead of whether the list already holds it | registering `logitech g502` leaves the list without it; registering `Logitech G502` twice lists it twice | `!deviceNames.Contains(device)`: append the lower-cased name once | high, not executed | ICue.RegisterDeviceName, ICue.LowerCaseNameIgnored | ICue.RegisterDeviceNameOnce |
