/** The Logitech G HUB reader: battery entries in the settings JSON object.

    The object is `None` when it could not be read, otherwise its properties in
    document order.  A property's value is `None` when `ToObject` throws on it.
    A key counts when it contains `battery` and splits on `/` into exactly three
    segments whose last one is `percentage` or `warning`; the middle segment
    names the device.  A percentage entry always overwrites, and a warning
    entry is stored only for a device not seen yet. */
module GHub {
  import opened Base
  import opened Text
  import opened BatteryStats

  const BATTERY_FILTER: string := "battery"
  const PERCENTAGE_SECTION: string := "percentage"
  const WARNING_SECTION: string := "warning"
  const SEPARATOR: char := '/'

  type Cache = StatsMap<GHubBatteryStats>

  /** One property of the settings object. */
  datatype Property = Property(name: string, value: Option<GHubBatteryStats>)

  datatype Section = Percentage | Warning

  /** What a qualifying key says: the device and the section. */
  datatype Key = Key(device: string, section: Section)

  function SectionText(section: Section): string
  {
    match section
    case Percentage => PERCENTAGE_SECTION
    case Warning => WARNING_SECTION
  }

  predicate IsBatteryName(name: string) { Contains(name, BATTERY_FILTER) }

  // ---------------------------------------------------------------------
  // Key filtering
  // ---------------------------------------------------------------------

  /** Which property names count: the name must mention `battery`, split on
      `/` into exactly three segments, and end in a known section. */
  function Classify(name: string): (r: Option<Key>)
    ensures r.Some? ==> IsBatteryName(name) && Free(r.value.device, SEPARATOR)
  {
    if !IsBatteryName(name) then None
    else
      var parts := Split(name, SEPARATOR);
      if |parts| != 3 then None
      else if parts[2] == PERCENTAGE_SECTION then Some(Key(parts[1], Percentage))
      else if parts[2] == WARNING_SECTION then Some(Key(parts[1], Warning))
      else None
  }

  /** A key qualifies exactly when it is `<prefix>/<device>/<section>` with
      slash-free parts and mentions `battery` somewhere. */
  lemma ClassifyShape(name: string)
    requires Classify(name).Some?
    ensures var k := Classify(name).value;
            exists prefix :: Free(prefix, SEPARATOR)
              && name == Join([prefix, k.device, SectionText(k.section)], SEPARATOR)
  {
    var parts := Split(name, SEPARATOR);
    assert parts == [parts[0], parts[1], SectionText(Classify(name).value.section)];
    assert Free(parts[0], SEPARATOR);
  }

  /** Conversely, every such key is recognised, with its middle segment as the
      device. */
  lemma ClassifyJoin(prefix: string, device: string, section: Section)
    requires Free(prefix, SEPARATOR) && Free(device, SEPARATOR)
    requires IsBatteryName(Join([prefix, device, SectionText(section)], SEPARATOR))
    ensures Classify(Join([prefix, device, SectionText(section)], SEPARATOR)) == Some(Key(device, section))
  {
    var parts := [prefix, device, SectionText(section)];
    assert Free(SectionText(section), SEPARATOR);
    SplitJoin(parts, SEPARATOR);
  }

  // ---------------------------------------------------------------------
  // The property loop
  // ---------------------------------------------------------------------

  /** The loop body for one property.  The value is converted before the
      warning check, so a malformed value aborts the pass even when the entry
      would have been skipped. */
  function Step(stats: Cache, p: Property): (r: Pass<Cache>)
    ensures stats.Keys <= r.stats.Keys
  {
    match Classify(p.name)
    case None => Completed(stats)
    case Some(k) =>
      match p.value
      case None => Aborted(stats)
      case Some(v) =>
        if k.device in stats && k.section == Warning then Completed(stats)
        else Completed(stats[k.device := v])
  }

  /** The whole loop; an escaping exception ends it with the entries stored so
      far. */
  function ApplyAll(props: seq<Property>, stats: Cache): (r: Pass<Cache>)
    ensures stats.Keys <= r.stats.Keys
    decreases |props|
  {
    if |props| == 0 then Completed(stats)
    else match Step(stats, props[0])
      case Aborted(m) => Aborted(m)
      case Completed(m) => ApplyAll(props[1..], m)
  }

  /** A property whose key qualifies but whose value cannot be converted. */
  predicate Broken(p: Property) { Classify(p.name).Some? && p.value.None? }

  /** The loop aborts exactly when some property is broken. */
  lemma {:induction false} ApplyAllAbortsIff(props: seq<Property>, stats: Cache)
    ensures ApplyAll(props, stats).Aborted? <==> exists i :: 0 <= i < |props| && Broken(props[i])
    decreases |props|
  {
    if |props| > 0 {
      assert forall i :: 1 <= i < |props| ==> props[1..][i - 1] == props[i];
      match Step(stats, props[0])
      case Aborted(m) =>
        assert Broken(props[0]);
      case Completed(m) =>
        ApplyAllAbortsIff(props[1..], m);
        if exists i :: 0 <= i < |props| && Broken(props[i]) {
          var i :| 0 <= i < |props| && Broken(props[i]);
          assert i > 0 && Broken(props[1..][i - 1]);
        }
    }
  }

  /** Running the loop over two runs of properties is running it over the
      first and continuing, unless the first aborted. */
  lemma {:induction false} ApplyAllSequential(first: seq<Property>, second: seq<Property>, stats: Cache)
    ensures ApplyAll(first + second, stats) ==
              match ApplyAll(first, stats)
              case Aborted(m) => Aborted(m)
              case Completed(m) => ApplyAll(second, m)
    decreases |first|
  {
    if |first| == 0 {
      assert first + second == second;
    } else {
      var all := first + second;
      assert all[0] == first[0] && all[1..] == first[1..] + second;
      match Step(stats, first[0])
      case Aborted(m) =>
      case Completed(m) => ApplyAllSequential(first[1..], second, m);
    }
  }

  // ---------------------------------------------------------------------
  // Precedence, stated independently of the loop
  // ---------------------------------------------------------------------

  /** The value of the last `percentage` property of `device`, if any. */
  ghost function LastPercentage(props: seq<Property>, device: string): Option<GHubBatteryStats>
    decreases |props|
  {
    if |props| == 0 then None
    else match LastPercentage(props[1..], device)
      case Some(v) => Some(v)
      case None => if Classify(props[0].name) == Some(Key(device, Percentage)) then props[0].value else None
  }

  /** The value of the first `warning` property of `device`, if any. */
  ghost function FirstWarning(props: seq<Property>, device: string): Option<GHubBatteryStats>
    decreases |props|
  {
    if |props| == 0 then None
    else if Classify(props[0].name) == Some(Key(device, Warning)) then props[0].value
    else FirstWarning(props[1..], device)
  }

  /** What a completed pass holds for `device`: its last percentage entry; failing
      that, what the cache already held; failing that, its first warning entry. */
  ghost function Expected(props: seq<Property>, stats: Cache, device: string): Option<GHubBatteryStats>
  {
    match LastPercentage(props, device)
    case Some(v) => Some(v)
    case None => if device in stats then Some(stats[device]) else FirstWarning(props, device)
  }

  /** A completed pass stores, for every device, exactly the entry the
      precedence rule picks. */
  lemma {:induction false} ApplyAllPrecedence(props: seq<Property>, stats: Cache, device: string)
    requires ApplyAll(props, stats).Completed?
    ensures Lookup(ApplyAll(props, stats).stats, device) == Expected(props, stats, device)
    decreases |props|
  {
    if |props| > 0 {
      var p := props[0];
      var m := Step(stats, p).stats;
      ApplyAllPrecedence(props[1..], m, device);
      match Classify(p.name)
      case None =>
      case Some(k) =>
        if k.device != device {
          assert Classify(p.name) != Some(Key(device, Percentage));
          assert Classify(p.name) != Some(Key(device, Warning));
        }
    }
  }

  /** The devices of the properties whose key qualifies. */
  ghost function Devices(props: seq<Property>): set<string>
    decreases |props|
  {
    if |props| == 0 then {}
    else match Classify(props[0].name)
      case None => Devices(props[1..])
      case Some(k) => {k.device} + Devices(props[1..])
  }

  /** A device is among them exactly when some qualifying key names it. */
  lemma {:induction false} DevicesIff(props: seq<Property>, device: string)
    ensures device in Devices(props) <==>
              exists i :: 0 <= i < |props| && Classify(props[i].name).Some?
                            && Classify(props[i].name).value.device == device
    decreases |props|
  {
    if |props| > 0 {
      DevicesIff(props[1..], device);
      assert forall i :: 1 <= i < |props| ==> props[i] == props[1..][i - 1];
      if device in Devices(props[1..]) {
        var i :| 0 <= i < |props[1..]| && Classify(props[1..][i].name).Some?
                   && Classify(props[1..][i].name).value.device == device;
        assert props[i + 1] == props[1..][i];
      }
    }
  }

  /** A completed pass adds exactly the devices named by qualifying keys. */
  lemma {:induction false} ApplyAllKeys(props: seq<Property>, stats: Cache)
    requires ApplyAll(props, stats).Completed?
    ensures ApplyAll(props, stats).stats.Keys == stats.Keys + Devices(props)
    decreases |props|
  {
    if |props| > 0 {
      var m := Step(stats, props[0]).stats;
      ApplyAllKeys(props[1..], m);
    }
  }

  // ---------------------------------------------------------------------
  // RefreshStats and the queries
  // ---------------------------------------------------------------------

  /** `RefreshStats`: the cache is rebuilt from an empty dictionary on every
      call.  An unreadable settings object leaves it empty; a missing file only
      stops the timer and the read is attempted regardless. */
  function RefreshStats(settings: Option<seq<Property>>): (r: Pass<Cache>)
    ensures settings.None? ==> r == Completed(map[])
    ensures settings.Some? && r.Completed? ==> r.stats.Keys == Devices(settings.value)
    ensures r.Aborted? <==> settings.Some? && exists i :: 0 <= i < |settings.value| && Broken(settings.value[i])
  {
    match settings
    case None => Completed(map[])
    case Some(props) =>
      ApplyAllAbortsIff(props, map[]);
      match ApplyAll(props, map[])
      case Aborted(m) => Aborted(m)
      case Completed(m) =>
        ApplyAllKeys(props, map[]);
        Completed(m)
  }

  /** After a completed refresh every device holds its last percentage entry,
      or its first warning entry when it has no percentage entry. */
  lemma RefreshPrecedence(props: seq<Property>, device: string)
    requires RefreshStats(Some(props)).Completed?
    ensures Lookup(RefreshStats(Some(props)).stats, device) ==
              if LastPercentage(props, device).Some? then LastPercentage(props, device)
              else FirstWarning(props, device)
  {
    ApplyAllPrecedence(props, map[], device);
  }

  /** For one device with both a warning and a percentage entry, the
      percentage entry is the one stored, whichever comes first. */
  lemma PercentageBeatsWarning(warning: Property, percentage: Property, device: string)
    requires Classify(warning.name) == Some(Key(device, Warning)) && warning.value.Some?
    requires Classify(percentage.name) == Some(Key(device, Percentage)) && percentage.value.Some?
    ensures RefreshStats(Some([warning, percentage])) == Completed(map[device := percentage.value.value])
    ensures RefreshStats(Some([percentage, warning])) == Completed(map[device := percentage.value.value])
  {
    var w := warning.value.value;
    var v := percentage.value.value;
    var m0: Cache := map[];
    assert [warning, percentage][1..] == [percentage];
    assert Step(m0, warning) == Completed(map[device := w]);
    assert map[device := w][device := v] == map[device := v];
    assert ApplyAll([percentage], map[device := w]) == Completed(map[device := v]);
    assert [percentage, warning][1..] == [warning];
    assert Step(m0, percentage) == Completed(map[device := v]);
    assert Step(map[device := v], warning) == Completed(map[device := v]);
    assert ApplyAll([warning], map[device := v]) == Completed(map[device := v]);
  }

  /** `GetBatteryStats`: the entry stored under exactly this device, or `None`. */
  function GetBatteryStats(stats: Cache, deviceName: string): (r: Option<GHubBatteryStats>)
    ensures r.Some? <==> deviceName in stats
    ensures r.Some? ==> r.value == stats[deviceName]
  {
    Lookup(stats, deviceName)
  }

  /** `GetAllDevices`: an empty cache is refreshed first (keeping whatever the
      refresh stored, even after an abort); the listing is the cache's keys. */
  function GetAllDevices(stats: Cache, settings: Option<seq<Property>>): (r: Listing<GHubBatteryStats>)
    ensures |stats| > 0 ==> r.stats == stats
    ensures r.names == r.stats.Keys
    ensures |stats| == 0 && settings.Some? && RefreshStats(settings).Completed? ==>
              r.names == Devices(settings.value)
    ensures |stats| == 0 && settings.None? ==> r.names == {}
  {
    var m := if |stats| == 0 then RefreshStats(settings).stats else stats;
    Listing(m, m.Keys)
  }

  /** A listed device can be looked up, and a device that can be looked up in
      the listed cache is listed. */
  lemma ListedIffFound(stats: Cache, settings: Option<seq<Property>>, deviceName: string)
    ensures var l := GetAllDevices(stats, settings);
            deviceName in l.names <==> GetBatteryStats(l.stats, deviceName).Some?
  {
  }
}
