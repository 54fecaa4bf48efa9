/** The per-vendor battery records and the point lookup the display layer
    performs on each reader's cache. */
module BatteryStats {
  import opened Base

  /** One Razer Synapse log block.  `updateDate` is the 24-character timestamp
      text the block was stamped with, kept unparsed. */
  datatype SynapseBatteryStats = SynapseBatteryStats(
    updateDate: string,
    deviceName: string,
    chargingState: string,
    percentage: int)

  /** One Logitech G HUB battery entry as decoded from the settings blob; the
      source's `double` percentage is kept as an integer. */
  datatype GHubBatteryStats = GHubBatteryStats(
    isCharging: bool,
    millivolts: int,
    percentage: int)

  /** One Corsair iCUE tray label that named a registered device. */
  datatype ICueBatteryStats = ICueBatteryStats(
    title: string,
    batteryLevel: string,
    percentage: int)

  /** Every reader's cache: device name to its latest record. */
  type StatsMap<S> = map<string, S>

  /** `GetBatteryStats`: the stored record for exactly this key, or `None`
      (the source's `null`) when the device was never observed. */
  function Lookup<S>(stats: StatsMap<S>, device: string): (r: Option<S>)
    ensures r.Some? <==> device in stats
    ensures r.Some? ==> r.value == stats[device]
  {
    if device in stats then Some(stats[device]) else None
  }

  /** What `GetAllDevices` hands back: the cache as it stands after the
      refresh the call may trigger, and the device names it lists. */
  datatype Listing<S> = Listing(stats: StatsMap<S>, names: set<string>)
}
