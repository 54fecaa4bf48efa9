/** The Corsair iCUE reader: battery levels scraped from tray button titles.

    Only titles holding one of the battery prefixes and naming a registered
    device (as a substring of the lower-cased title) are kept; the text after
    the last occurrence of the prefix, without `%` and surrounding white space,
    is the battery level.  The tray scan is `None` when the scanner returns
    `null` or throws. */
module ICue {
  import opened Base
  import opened Text
  import opened Int32Text
  import opened BatteryStats

  /** The prefixes iCUE has used, tried in this order. */
  const PREFIXES: seq<string> := ["Battery Status:", "Battery Level", "Battery Status"]

  type Cache = StatsMap<ICueBatteryStats>

  /** The reader's state: the registered lower-case names, in registration
      order, and the cache keyed by those names. */
  datatype Reader = Reader(deviceNames: seq<string>, stats: Cache)

  // ---------------------------------------------------------------------
  // CalculatePercentage
  // ---------------------------------------------------------------------

  /** The verbal levels and their percentages, as a table. */
  const LEVELS: map<string, int> :=
    map["charging" := 100, "full" := 100, "high" := 80, "medium" := 60,
        "low" := 24, "critical" := 5, "unknown" := 0]

  /** `CalculatePercentage`: the number itself when the text is an `Int32`,
      otherwise the `switch` over the lower-cased text, with 0 for any text it
      does not know. */
  function CalculatePercentage(level: string): (r: int)
    ensures ParseInt32(level).Some? ==> r == ParseInt32(level).value
    ensures ParseInt32(level).None? ==> 0 <= r <= 100
  {
    match ParseInt32(level)
    case Some(n) => n
    case None =>
      var word := ToLower(level);
      if word == "charging" || word == "full" then 100
      else if word == "high" then 80
      else if word == "medium" then 60
      else if word == "low" then 24
      else if word == "critical" then 5
      else if word == "unknown" then 0
      else 0
  }

  /** A non-numeric level is looked up in the table without regard to case;
      a word outside the table counts as 0. */
  lemma CalculatePercentageTable(level: string)
    requires ParseInt32(level).None?
    ensures ToLower(level) in LEVELS ==> CalculatePercentage(level) == LEVELS[ToLower(level)]
    ensures ToLower(level) !in LEVELS ==> CalculatePercentage(level) == 0
  {
  }

  /** Every 32-bit number printed as text comes back as its own percentage. */
  lemma CalculatePercentageRoundTrip(n: int)
    requires InInt32(n)
    ensures CalculatePercentage(FormatInt(n)) == n
  {
    ParseFormatRoundTrip(n);
  }

  /** A blank level, the empty text included, is not a number and is not in
      the table, so it counts as 0. */
  lemma BlankLevelIsZero(level: string)
    requires AllWhite(level)
    ensures CalculatePercentage(level) == 0
  {
    BlankDoesNotParse(level);
    if |level| > 0 {
      assert IsWhite(level[0]) && IsWhite(ToLower(level)[0]);
    }
  }

  /** Text that parses as a number holds only white space, a sign and digits. */
  lemma ParsedChars(s: string)
    requires ParseInt32(s).Some?
    ensures forall i :: 0 <= i < |s| ==> IsWhite(s[i]) || s[i] == '-' || s[i] == '+' || IsDigit(s[i])
  {
    TrimSpec(s);
    var t := Trim(s);
    var j :| TrimmedAt(s, t, j);
    forall i | 0 <= i < |s|
      ensures IsWhite(s[i]) || s[i] == '-' || s[i] == '+' || IsDigit(s[i])
    {
      if j <= i < j + |t| {
        assert s[i] == t[i - j];
        if i > j {
          var digits := if |t| > 0 && (t[0] == '-' || t[0] == '+') then t[1..] else t;
          assert AllDigits(digits);
          if |t| > 0 && (t[0] == '-' || t[0] == '+') {
            assert t[i - j] == digits[i - j - 1];
          } else {
            assert t[i - j] == digits[i - j];
          }
        } else {
          var digits := if |t| > 0 && (t[0] == '-' || t[0] == '+') then t[1..] else t;
          if !(t[0] == '-' || t[0] == '+') {
            assert t[0] == digits[0];
          }
        }
      }
    }
  }

  /** The percentage does not depend on the case of the level text. */
  lemma CalculatePercentageIgnoresCase(level: string)
    ensures CalculatePercentage(ToLower(level)) == CalculatePercentage(level)
  {
    ToLowerIdempotent(level);
    var low := ToLower(level);
    if ParseInt32(low).Some? {
      ParsedChars(low);
      assert forall i :: 0 <= i < |level| ==> !IsUpper(level[i]) by {
        forall i | 0 <= i < |level| ensures !IsUpper(level[i]) {
          assert low[i] == LowerChar(level[i]);
        }
      }
      ToLowerFixedIff(level);
    } else if ParseInt32(level).Some? {
      ParsedChars(level);
      ToLowerFixedIff(level);
    }
  }

  // ---------------------------------------------------------------------
  // Matching one title
  // ---------------------------------------------------------------------

  /** The first of the battery prefixes, in list order, that the title holds. */
  function ChoosePrefix(title: string): (r: Option<string>)
    ensures r.Some? ==> Contains(title, r.value)
    ensures r.Some? ==> exists i :: 0 <= i < |PREFIXES| && PREFIXES[i] == r.value
                          && forall j :: 0 <= j < i ==> !Contains(title, PREFIXES[j])
    ensures r.None? <==> forall j :: 0 <= j < |PREFIXES| ==> !Contains(title, PREFIXES[j])
  {
    match FirstContainedIn(title, PREFIXES)
    case None => None
    case Some(i) => Some(PREFIXES[i])
  }

  /** The first registered name inside the lower-cased title, rejected when
      that name is empty. */
  function MatchDevice(names: seq<string>, title: string): (r: Option<string>)
    ensures r.Some? ==> r.value != "" && Contains(ToLower(title), r.value)
    ensures r.Some? ==> exists i :: 0 <= i < |names| && names[i] == r.value
                          && forall j :: 0 <= j < i ==> !Contains(ToLower(title), names[j])
    ensures r.None? <==> forall i :: 0 <= i < |names| && Contains(ToLower(title), names[i]) ==>
                           exists j :: 0 <= j <= i && names[j] == ""
  {
    match FirstContainedIn(ToLower(title), names)
    case None => None
    case Some(i) =>
      if names[i] == "" then
        assert forall k :: 0 <= k < |names| && Contains(ToLower(title), names[k]) ==> k >= i;
        None
      else
        assert forall j :: 0 <= j < i ==> names[j] != "" by {
          assert OccursAt(ToLower(title), "", 0);
        }
        Some(names[i])
  }

  /** The `batteryLevel` text: after the last occurrence of the prefix, every
      `%` removed, then trimmed. */
  function LevelText(title: string, prefix: string): string
    requires Contains(title, prefix)
  {
    var start := LastIndexOf(title, prefix).value + |prefix|;
    Trim(RemoveChar(title[start..], '%'))
  }

  /** Stripping `c` and trimming leaves a string without `c` and without
      white space at either end. */
  lemma StripTrimSpec(s: string, c: char)
    ensures var r := Trim(RemoveChar(s, c));
            && Free(r, c)
            && (|r| > 0 ==> !IsWhite(r[0]) && !IsWhite(r[|r| - 1]))
  {
    var stripped := RemoveChar(s, c);
    TrimSpec(stripped);
    TrimFree(stripped, c);
  }

  /** ... and is made of characters of the original. */
  lemma StripTrimShrinks(s: string, c: char)
    ensures multiset(Trim(RemoveChar(s, c))) <= multiset(s)
  {
    TrimKeeps(RemoveChar(s, c));
    RemoveCharShrinks(s, c);
  }

  lemma RemoveCharShrinks(s: string, c: char)
    ensures Free(RemoveChar(s, c), c)
    ensures multiset(RemoveChar(s, c)) <= multiset(s)
  {
    var m := multiset(s);
    assert multiset(RemoveChar(s, c)) == m[c := 0];
    assert forall x :: m[c := 0][x] <= m[x];
  }

  /** The level is the text after the last occurrence of the prefix with every
      `%` removed (the others kept in order) and then trimmed: a slice of it
      with non-blank ends, only white space cut off. */
  lemma LevelTextSpec(title: string, prefix: string)
    requires Contains(title, prefix)
    ensures var r := LevelText(title, prefix);
            var start := LastIndexOf(title, prefix).value + |prefix|;
            var stripped := RemoveChar(title[start..], '%');
            && (exists i :: TrimmedAt(stripped, r, i))
            && Free(r, '%')
            && (|r| > 0 ==> !IsWhite(r[0]) && !IsWhite(r[|r| - 1]))
            && multiset(r) <= multiset(title[start..])
            && (forall j :: start - |prefix| < j ==> !OccursAt(title, prefix, j))
  {
    var start := LastIndexOf(title, prefix).value + |prefix|;
    var stripped := RemoveChar(title[start..], '%');
    TrimSpec(stripped);
    var i :| TrimmedAt(stripped, Trim(stripped), i);
    assert TrimmedAt(stripped, LevelText(title, prefix), i);
    StripTrimSpec(title[start..], '%');
    StripTrimShrinks(title[start..], '%');
  }

  /** The last occurrence of the prefix is the one written after `pre` when
      none follows it. */
  lemma LastPrefixAt(pre: string, prefix: string, rest: string)
    requires forall j :: |pre| < j ==> !OccursAt(pre + prefix + rest, prefix, j)
    ensures Contains(pre + prefix + rest, prefix)
    ensures LastIndexOf(pre + prefix + rest, prefix) == Some(|pre|)
    ensures (pre + prefix + rest)[|pre| + |prefix|..] == rest
  {
    var title := pre + prefix + rest;
    assert title[|pre|..|pre| + |prefix|] == prefix;
    assert OccursAt(title, prefix, |pre|);
  }

  /** Removing `c` from a text free of it with one `c` appended gives the
      text back. */
  lemma StripSuffix(body: string, c: char)
    requires Free(body, c)
    ensures RemoveChar(body + [c], c) == body
  {
    RemoveCharAppend(body, [c], c);
    RemoveCharFree(body, c);
    assert RemoveChar([c], c) == [];
  }

  /** White space, a printed number and `%`, stripped and trimmed, leave the
      number's text. */
  lemma StripNumber(w: string, n: int)
    requires AllWhite(w)
    ensures Trim(RemoveChar(w + FormatInt(n) + "%", '%')) == FormatInt(n)
  {
    var num := FormatInt(n);
    var body := w + num;
    assert Free(body, '%') by {
      FormatIntShape(n);
      forall k | 0 <= k < |body| ensures body[k] != '%' {
        if k < |w| { assert body[k] == w[k]; } else { assert body[k] == num[k - |w|]; }
      }
    }
    assert w + num + "%" == body + "%";
    StripSuffix(body, '%');
    assert !IsWhite(num[0]) && !IsWhite(num[|num| - 1]) by { FormatIntShape(n); }
    assert w + num + "" == body;
    TrimPadded(w, num, "");
  }

  /** A title that ends in the prefix, white space, a printed number and `%`
      has that number's text as its level. */
  lemma LevelTextOfNumber(pre: string, prefix: string, w: string, n: int)
    requires AllWhite(w)
    requires forall j :: |pre| < j ==> !OccursAt(pre + prefix + w + FormatInt(n) + "%", prefix, j)
    ensures var title := pre + prefix + w + FormatInt(n) + "%";
            Contains(title, prefix) && LevelText(title, prefix) == FormatInt(n)
  {
    var rest := w + FormatInt(n) + "%";
    assert pre + prefix + w + FormatInt(n) + "%" == pre + prefix + rest;
    LastPrefixAt(pre, prefix, rest);
    StripNumber(w, n);
  }

  /** The label a device shows, such as `Logitech G502 Battery Status: 80%`,
      is read as a record whose percentage is the number printed. */
  lemma {:induction false} ReadingOfNumber(names: seq<string>, title: string, pre: string, prefix: string, w: string, n: int)
    requires title == pre + prefix + w + FormatInt(n) + "%"
    requires AllWhite(w) && InInt32(n)
    requires forall j :: |pre| < j ==> !OccursAt(title, prefix, j)
    ensures ChoosePrefix(title) == Some(prefix) && MatchDevice(names, title).Some? ==>
              Reading(names, title) == Some((MatchDevice(names, title).value, ICueBatteryStats(title, FormatInt(n), n)))
  {
    LevelTextOfNumber(pre, prefix, w, n);
    CalculatePercentageRoundTrip(n);
  }

  /** The record one title produces, if any: the device it is stored under and
      the stored statistics. */
  function Reading(names: seq<string>, title: string): (r: Option<(string, ICueBatteryStats)>)
    ensures r.Some? ==> r.value.0 != "" && r.value.1.title == title
  {
    match ChoosePrefix(title)
    case None => None
    case Some(prefix) =>
      match MatchDevice(names, title)
      case None => None
      case Some(device) =>
        var level := LevelText(title, prefix);
        Some((device, ICueBatteryStats(title, level, CalculatePercentage(level))))
  }

  /** What one title yields exactly: a record when it holds a prefix and names
      a registered device, for the first such device, with the level cut after
      the first listed prefix it holds. */
  lemma ReadingIff(names: seq<string>, title: string)
    ensures Reading(names, title).Some? <==> ChoosePrefix(title).Some? && MatchDevice(names, title).Some?
    ensures Reading(names, title).Some? ==>
              var (device, record) := Reading(names, title).value;
              && device == MatchDevice(names, title).value
              && record.batteryLevel == LevelText(title, ChoosePrefix(title).value)
              && record.percentage == CalculatePercentage(record.batteryLevel)
  {
  }

  /** The loop body for one title. */
  function Observe(stats: Cache, names: seq<string>, title: string): (r: Cache)
    ensures stats.Keys <= r.Keys
    ensures forall k :: k in r && (k !in stats || r[k] != stats[k]) ==> Reading(names, title) == Some((k, r[k]))
  {
    match Reading(names, title)
    case None => stats
    case Some((device, record)) => stats[device := record]
  }

  /** The whole loop, titles in scan order. */
  function ApplyTitles(stats: Cache, names: seq<string>, titles: seq<string>): (r: Cache)
    ensures stats.Keys <= r.Keys
    decreases |titles|
  {
    if |titles| == 0 then stats
    else ApplyTitles(Observe(stats, names, titles[0]), names, titles[1..])
  }

  /** Scanning two runs of titles is scanning the first and then the second. */
  lemma {:induction false} ApplyTitlesSequential(stats: Cache, names: seq<string>, first: seq<string>, second: seq<string>)
    ensures ApplyTitles(stats, names, first + second) == ApplyTitles(ApplyTitles(stats, names, first), names, second)
    decreases |first|
  {
    if |first| == 0 {
      assert first + second == second;
    } else {
      var all := first + second;
      assert all[0] == first[0] && all[1..] == first[1..] + second;
      ApplyTitlesSequential(Observe(stats, names, first[0]), names, first[1..], second);
    }
  }

  /** The record of the last title that reads as `device`, read from the end. */
  ghost function LastReading(names: seq<string>, titles: seq<string>, device: string): Option<ICueBatteryStats>
    decreases |titles|
  {
    if |titles| == 0 then None
    else
      var r := Reading(names, titles[|titles| - 1]);
      if r.Some? && r.value.0 == device then Some(r.value.1)
      else LastReading(names, titles[..|titles| - 1], device)
  }

  /** After a scan each device holds the record of the last title naming it,
      or what it held before when no title named it. */
  lemma {:induction false} ApplyTitlesLastWins(stats: Cache, names: seq<string>, titles: seq<string>, device: string)
    ensures Lookup(ApplyTitles(stats, names, titles), device) ==
              if LastReading(names, titles, device).Some? then LastReading(names, titles, device)
              else Lookup(stats, device)
    decreases |titles|
  {
    if |titles| > 0 {
      var init := titles[..|titles| - 1];
      var last := titles[|titles| - 1];
      assert titles == init + [last];
      ApplyTitlesSequential(stats, names, init, [last]);
      ApplyTitlesLastWins(stats, names, init, device);
      var mid := ApplyTitles(stats, names, init);
      assert ApplyTitles(mid, names, [last]) == Observe(mid, names, last) by {
        assert [last][1..] == [];
      }
    }
  }

  // ---------------------------------------------------------------------
  // RefreshStats, the queries and registration
  // ---------------------------------------------------------------------

  /** `RefreshStats`: nothing happens while no name is registered or when the
      scan failed; otherwise every title is matched in turn. */
  function RefreshStats(reader: Reader, scan: Option<seq<string>>): (r: Reader)
    ensures r.deviceNames == reader.deviceNames
    ensures reader.stats.Keys <= r.stats.Keys
    ensures |reader.deviceNames| == 0 || scan.None? ==> r == reader
  {
    if |reader.deviceNames| == 0 then reader
    else match scan
      case None => reader
      case Some(titles) => Reader(reader.deviceNames, ApplyTitles(reader.stats, reader.deviceNames, titles))
  }

  /** With a name registered and a successful scan, each device holds the
      record of the last title naming it, or what it held before when no
      title named it. */
  lemma RefreshLastWins(reader: Reader, titles: seq<string>, device: string)
    requires |reader.deviceNames| > 0
    ensures Lookup(RefreshStats(reader, Some(titles)).stats, device) ==
              if LastReading(reader.deviceNames, titles, device).Some? then LastReading(reader.deviceNames, titles, device)
              else Lookup(reader.stats, device)
  {
    ApplyTitlesLastWins(reader.stats, reader.deviceNames, titles, device);
  }

  /** Every cached entry sits under a non-empty registered name that occurs in
      the lower-cased title it was read from. */
  ghost predicate Consistent(reader: Reader)
  {
    forall k :: k in reader.stats ==>
      && k != ""
      && (exists i :: 0 <= i < |reader.deviceNames| && reader.deviceNames[i] == k)
      && Contains(ToLower(reader.stats[k].title), k)
  }

  lemma {:induction false} ApplyTitlesConsistent(reader: Reader, titles: seq<string>)
    requires Consistent(reader)
    ensures Consistent(Reader(reader.deviceNames, ApplyTitles(reader.stats, reader.deviceNames, titles)))
    decreases |titles|
  {
    if |titles| > 0 {
      var names := reader.deviceNames;
      var next := Reader(names, Observe(reader.stats, names, titles[0]));
      assert Consistent(next) by {
        forall k | k in next.stats
          ensures k != "" && (exists i :: 0 <= i < |names| && names[i] == k) && Contains(ToLower(next.stats[k].title), k)
        {
          if k !in reader.stats || next.stats[k] != reader.stats[k] {
            assert Reading(names, titles[0]) == Some((k, next.stats[k]));
          }
        }
      }
      ApplyTitlesConsistent(next, titles[1..]);
    }
  }

  /** A refresh keeps the cache consistent with the registered names. */
  lemma RefreshConsistent(reader: Reader, scan: Option<seq<string>>)
    requires Consistent(reader)
    ensures Consistent(RefreshStats(reader, scan))
  {
    if |reader.deviceNames| > 0 && scan.Some? {
      ApplyTitlesConsistent(reader, scan.value);
    }
  }

  /** `GetBatteryStats`: the query is lower-cased before the lookup. */
  function GetBatteryStats(reader: Reader, deviceName: string): (r: Option<ICueBatteryStats>)
    ensures r.Some? <==> ToLower(deviceName) in reader.stats
    ensures r.Some? ==> r.value == reader.stats[ToLower(deviceName)]
  {
    Lookup(reader.stats, ToLower(deviceName))
  }

  /** Queries differing only in letter case get the same answer, and on a
      consistent reader a found device is registered. */
  lemma GetBatteryStatsIgnoresCase(reader: Reader, deviceName: string)
    ensures GetBatteryStats(reader, ToLower(deviceName)) == GetBatteryStats(reader, deviceName)
    ensures Consistent(reader) && GetBatteryStats(reader, deviceName).Some? ==>
              exists i :: 0 <= i < |reader.deviceNames| && reader.deviceNames[i] == ToLower(deviceName)
  {
    ToLowerIdempotent(deviceName);
  }

  /** `RegisterDeviceName`'s outcome: the reader afterwards and the `true` the
      method always returns. */
  datatype Registration = Registration(reader: Reader, accepted: bool)

  /** `RegisterDeviceName` as written: the lower-cased name is appended, and a
      refresh run, when the name given does not contain its own lower-case
      form. */
  function RegisterDeviceName(reader: Reader, deviceName: string, scan: Option<seq<string>>): (r: Registration)
    ensures r.accepted
    ensures r.reader.deviceNames == reader.deviceNames
            || r.reader.deviceNames == reader.deviceNames + [ToLower(deviceName)]
  {
    var device := ToLower(deviceName);
    if !Contains(deviceName, device) then
      Registration(RefreshStats(Reader(reader.deviceNames + [device], reader.stats), scan), true)
    else Registration(reader, true)
  }

  /** The guard holds exactly when the name has an upper-case letter: a name
      already in lower case is never registered, and a mixed-case name is
      appended again on every call. */
  lemma RegisterAddsIffUpper(reader: Reader, deviceName: string, scan: Option<seq<string>>)
    ensures var r := RegisterDeviceName(reader, deviceName, scan).reader;
            (r.deviceNames == reader.deviceNames + [ToLower(deviceName)]
             <==> exists i :: 0 <= i < |deviceName| && IsUpper(deviceName[i]))
    ensures (forall i :: 0 <= i < |deviceName| ==> !IsUpper(deviceName[i])) ==>
              RegisterDeviceName(reader, deviceName, scan).reader == reader
  {
    ContainsSameLength(deviceName, ToLower(deviceName));
    ToLowerFixedIff(deviceName);
    assert reader.deviceNames != reader.deviceNames + [ToLower(deviceName)] by {
      assert |reader.deviceNames + [ToLower(deviceName)]| == |reader.deviceNames| + 1;
    }
  }

  /** Registration keeps the reader consistent. */
  lemma RegisterConsistent(reader: Reader, deviceName: string, scan: Option<seq<string>>)
    requires Consistent(reader)
    ensures Consistent(RegisterDeviceName(reader, deviceName, scan).reader)
  {
    var device := ToLower(deviceName);
    if !Contains(deviceName, device) {
      var grown := Reader(reader.deviceNames + [device], reader.stats);
      assert Consistent(grown) by {
        forall k | k in grown.stats
          ensures exists i :: 0 <= i < |grown.deviceNames| && grown.deviceNames[i] == k
        {
          var i :| 0 <= i < |reader.deviceNames| && reader.deviceNames[i] == k;
          assert grown.deviceNames[i] == k;
        }
      }
      RefreshConsistent(grown, scan);
    }
  }

  /** An all-lower-case registration never takes effect: the device stays
      unregistered and no title can ever be read as it. */
  lemma LowerCaseNameIgnored(reader: Reader, deviceName: string, scan: Option<seq<string>>)
    requires forall i :: 0 <= i < |deviceName| ==> !IsUpper(deviceName[i])
    requires forall i :: 0 <= i < |reader.deviceNames| ==> reader.deviceNames[i] != deviceName
    ensures forall i :: 0 <= i < |RegisterDeviceName(reader, deviceName, scan).reader.deviceNames| ==>
              RegisterDeviceName(reader, deviceName, scan).reader.deviceNames[i] != deviceName
  {
    RegisterAddsIffUpper(reader, deviceName, scan);
  }

  predicate Registered(names: seq<string>, device: string)
  {
    exists i :: 0 <= i < |names| && names[i] == device
  }

  predicate Distinct(names: seq<string>)
  {
    forall i, j :: 0 <= i < j < |names| ==> names[i] != names[j]
  }

  /** The evidently intended registration: append the lower-cased name unless
      it is already registered, then refresh. */
  function RegisterDeviceNameOnce(reader: Reader, deviceName: string, scan: Option<seq<string>>): (r: Registration)
    ensures r.accepted
    ensures Registered(r.reader.deviceNames, ToLower(deviceName))
    ensures Registered(reader.deviceNames, ToLower(deviceName)) ==> r.reader == reader
    ensures !Registered(reader.deviceNames, ToLower(deviceName)) ==>
              r.reader.deviceNames == reader.deviceNames + [ToLower(deviceName)]
    ensures Distinct(reader.deviceNames) ==> Distinct(r.reader.deviceNames)
  {
    var device := ToLower(deviceName);
    if !Registered(reader.deviceNames, device) then
      var names := reader.deviceNames + [device];
      assert names[|names| - 1] == device;
      Registration(RefreshStats(Reader(names, reader.stats), scan), true)
    else Registration(reader, true)
  }

  /** Registering the same name twice, in any letter case, is registering it
      once. */
  lemma RegisterOnceIdempotent(reader: Reader, deviceName: string, other: string, scan: Option<seq<string>>)
    requires ToLower(other) == ToLower(deviceName)
    ensures var once := RegisterDeviceNameOnce(reader, deviceName, scan).reader;
            RegisterDeviceNameOnce(once, other, scan).reader == once
  {
  }
}
