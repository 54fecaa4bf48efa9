/** The Razer Synapse reader: battery blocks in the Synapse 3 text log.

    A block starts at a line holding the sentinel text; the next line carries
    the device name after its last colon, and the field lines that follow are
    consumed up to the first `Battery State:` line, collecting the last
    `Battery Percentage:` value on the way.  Blocks are upserted under their
    device name.  The log file is `None` when it does not exist, otherwise its
    lines; `DateTime.Parse` is the caller-supplied `validDate`. */
module Synapse {
  import opened Base
  import opened Text
  import opened Int32Text
  import opened BatteryStats

  const SENTINEL: string := "INFO 1 Battery Get By Device Handle"
  const PERCENTAGE_FIELD: string := "Battery Percentage:"
  const STATE_FIELD: string := "Battery State:"
  /** Length of the timestamp prefix of a sentinel line. */
  const DATE_LENGTH: nat := 24

  type Cache = StatsMap<SynapseBatteryStats>

  /** Whether `DateTime.Parse` accepts a timestamp text. */
  type DateCheck = string -> bool

  predicate IsSentinel(line: string) { Contains(line, SENTINEL) }
  predicate IsPercentLine(line: string) { Contains(line, PERCENTAGE_FIELD) }
  predicate IsStateLine(line: string) { Contains(line, STATE_FIELD) }

  // ---------------------------------------------------------------------
  // Field extraction
  // ---------------------------------------------------------------------

  lemma ColonAt(line: string, i: int)
    requires 0 <= i < |line|
    ensures OccursAt(line, ":", i) <==> line[i] == ':'
  {
    if line[i] == ':' {
      assert line[i..i + 1] == ":";
    }
  }

  /** The text starting two characters after the last colon (one character
      in when there is no colon); `None` where that start lies past the end
      and the substring call throws. */
  function AfterLastColon(line: string): (r: Option<string>)
    ensures r.Some? ==> |r.value| < |line|
  {
    var start := match LastIndexOf(line, ":") case Some(i) => i + 2 case None => 1;
    if start <= |line| then Some(line[start..]) else None
  }

  /** The value is a colon-free suffix of the line that skips the one
      character after the last colon (the blank of a `Key: value` line); with
      no colon at all it skips only the first character.  It fails exactly on
      the empty line and on a line that ends in a colon. */
  lemma AfterLastColonSpec(line: string)
    ensures var r := AfterLastColon(line);
            && (r.Some? ==> r.value == line[|line| - |r.value|..] && Free(r.value, ':'))
            && (r.Some? && Contains(line, ":") ==>
                  |r.value| + 2 <= |line| && line[|line| - |r.value| - 2] == ':'
                  && line[|line| - |r.value| - 1] != ':')
            && (r.Some? && !Contains(line, ":") ==> |r.value| + 1 == |line|)
            && (r.None? <==> |line| == 0 || line[|line| - 1] == ':')
  {
    var start := match LastIndexOf(line, ":") case Some(i) => i + 2 case None => 1;
    if start <= |line| {
      var v := line[start..];
      assert Free(v, ':') by {
        forall k | 0 <= k < |v| ensures v[k] != ':' {
          ColonAt(line, start + k);
        }
      }
      if Contains(line, ":") {
        ColonAt(line, start - 1);
        ColonAt(line, start - 2);
      }
      assert line[|line| - 1] != ':' by {
        if |v| == 0 && !Contains(line, ":") { ColonAt(line, 0); }
      }
    } else if |line| > 0 {
      ColonAt(line, |line| - 1);
    }
  }

  /** `Convert.ToInt32` of the text after the colon; `None` where either step
      throws. */
  function PercentValue(line: string): (r: Option<int>)
    ensures r.Some? ==> InInt32(r.value)
  {
    match AfterLastColon(line)
    case None => None
    case Some(t) => ParseInt32(t)
  }

  /** The percentage after reading one more field line: the line's value when
      it is a percentage line, `None` when that value is malformed. */
  function NextPercentage(line: string, percentage: int): Option<int>
  {
    if IsPercentLine(line) then PercentValue(line) else Some(percentage)
  }

  // ---------------------------------------------------------------------
  // One block
  // ---------------------------------------------------------------------

  /** What the field loop gathered: the percentage, the charging state, and how
      many lines it read. */
  datatype Fields = Fields(percentage: int, chargingState: string, used: nat)

  /** The inner field loop: read lines up to the first state line, taking the
      value of every percentage line on the way.
      Running out of lines is the `NullReferenceException` of the source, and
      a bad number or substring is the exception `Convert.ToInt32` or
      `Substring` throws; both yield `None`. */
  function ScanFields(lines: seq<string>, percentage: int): (r: Option<Fields>)
    ensures r.Some? ==> 1 <= r.value.used <= |lines|
    decreases |lines|
  {
    if |lines| == 0 then None
    else
      var line := lines[0];
      var pct := NextPercentage(line, percentage);
      if pct.None? then None
      else if IsStateLine(line) then
        match AfterLastColon(line)
        case None => None
        case Some(state) => Some(Fields(pct.value, state, 1))
      else
        match ScanFields(lines[1..], pct.value)
        case None => None
        case Some(f) => Some(Fields(f.percentage, f.chargingState, f.used + 1))
  }

  /** A successful field loop stops at the first state line and takes the
      charging state from it. */
  lemma {:induction false} ScanFieldsStopsAtState(lines: seq<string>, percentage: int)
    requires ScanFields(lines, percentage).Some?
    ensures var f := ScanFields(lines, percentage).value;
            && IsStateLine(lines[f.used - 1])
            && (forall j :: 0 <= j < f.used - 1 ==> !IsStateLine(lines[j]))
            && AfterLastColon(lines[f.used - 1]) == Some(f.chargingState)
    decreases |lines|
  {
    var line := lines[0];
    var f := ScanFields(lines, percentage).value;
    if !IsStateLine(line) {
      var pct := NextPercentage(line, percentage);
      var g := ScanFields(lines[1..], pct.value).value;
      assert f.used == g.used + 1 && f.chargingState == g.chargingState;
      ScanFieldsStopsAtState(lines[1..], pct.value);
      assert forall j :: 1 <= j < |lines| ==> lines[j] == lines[1..][j - 1];
    } else {
      assert f.used == 1;
    }
  }

  /** Every percentage line a successful field loop read was well formed. */
  lemma {:induction false} ScanFieldsPercentagesParse(lines: seq<string>, percentage: int)
    requires ScanFields(lines, percentage).Some?
    ensures forall j :: 0 <= j < ScanFields(lines, percentage).value.used && IsPercentLine(lines[j]) ==>
              PercentValue(lines[j]).Some?
    decreases |lines|
  {
    var line := lines[0];
    if !IsStateLine(line) {
      var pct := NextPercentage(line, percentage);
      ScanFieldsPercentagesParse(lines[1..], pct.value);
    }
  }

  /** The value a line contributes to the percentage, if any: the number of a
      well-formed percentage line. */
  function PercentageOf(line: string): Option<int>
  {
    if IsPercentLine(line) then PercentValue(line) else None
  }

  /** The value of the last percentage line in `block`, or `default` when it has
      none.  Read from the end, independently of the loop's forward scan. */
  ghost function LastPercentage(block: seq<string>, default: int): int
    decreases |block|
  {
    if |block| == 0 then default
    else match PercentageOf(block[|block| - 1])
      case Some(v) => v
      case None => LastPercentage(block[..|block| - 1], default)
  }

  /** Scanning one more line in front only changes the fallback value. */
  lemma {:induction false} LastPercentageCons(line: string, block: seq<string>, default: int)
    ensures LastPercentage([line] + block, default) == LastPercentage(block, LastPercentage([line], default))
    decreases |block|
  {
    var all := [line] + block;
    if |block| > 0 {
      assert all[..|all| - 1] == [line] + block[..|block| - 1];
      assert all[|all| - 1] == block[|block| - 1];
      if PercentageOf(block[|block| - 1]).None? {
        LastPercentageCons(line, block[..|block| - 1], default);
      }
    } else {
      assert all == [line];
    }
  }

  /** On a single line, the backward reading agrees with the loop's step. */
  lemma LastPercentageSingle(line: string, default: int)
    requires NextPercentage(line, default).Some?
    ensures LastPercentage([line], default) == NextPercentage(line, default).value
  {
    assert [line][..0] == [];
  }

  /** The percentage a successful field loop reports is the last one it read, or
      the starting value if it read none. */
  lemma {:induction false} ScanFieldsPercentage(lines: seq<string>, percentage: int)
    requires ScanFields(lines, percentage).Some?
    ensures var f := ScanFields(lines, percentage).value;
            f.percentage == LastPercentage(lines[..f.used], percentage)
    decreases |lines|
  {
    var line := lines[0];
    var f := ScanFields(lines, percentage).value;
    var pct := NextPercentage(line, percentage);
    var v := pct.value;
    LastPercentageSingle(line, percentage);
    if !IsStateLine(line) {
      var g := ScanFields(lines[1..], v).value;
      assert f.used == g.used + 1 && f.percentage == g.percentage;
      ScanFieldsPercentage(lines[1..], v);
      PrefixCons(lines, f.used);
      LastPercentageCons(line, lines[1..][..g.used], percentage);
      assert lines[..f.used] == [line] + lines[1..][..g.used];
      assert LastPercentage(lines[..f.used], percentage) == LastPercentage(lines[1..][..g.used], v);
    } else {
      assert f.used == 1 && f.percentage == v;
      assert lines[..f.used] == [line];
    }
  }

  /** Line `k` closes a well-formed field run: it is the first state line, its
      value can be cut out, and every percentage line up to it parses. */
  ghost predicate BlockEndsAt(lines: seq<string>, k: int)
  {
    && 0 <= k < |lines|
    && IsStateLine(lines[k])
    && (forall j :: 0 <= j < k ==> !IsStateLine(lines[j]))
    && AfterLastColon(lines[k]).Some?
    && (forall j :: 0 <= j <= k && IsPercentLine(lines[j]) ==> PercentValue(lines[j]).Some?)
  }

  /** The field loop fails exactly when no well-formed run exists: the lines
      end before a state line, or a number or substring on the way is bad. */
  lemma {:induction false} ScanFieldsSucceedsIff(lines: seq<string>, percentage: int)
    ensures ScanFields(lines, percentage).Some? <==> exists k :: BlockEndsAt(lines, k)
    decreases |lines|
  {
    if |lines| == 0 {
      return;
    }
    var line := lines[0];
    var pct := NextPercentage(line, percentage);
    var tail := lines[1..];
    assert forall j :: 1 <= j < |lines| ==> lines[j] == tail[j - 1];
    if ScanFields(lines, percentage).Some? {
      ScanFieldsStopsAtState(lines, percentage);
      ScanFieldsPercentagesParse(lines, percentage);
      assert BlockEndsAt(lines, ScanFields(lines, percentage).value.used - 1);
    } else if exists k :: BlockEndsAt(lines, k) {
      var k :| BlockEndsAt(lines, k);
      if k == 0 {
        assert false;
      } else {
        assert BlockEndsAt(tail, k - 1);
        ScanFieldsSucceedsIff(tail, pct.value);
        assert false;
      }
    }
  }

  /** Extra lines after a finished field run are never looked at. */
  lemma {:induction false} ScanFieldsPrefix(lines: seq<string>, more: seq<string>, percentage: int)
    requires ScanFields(lines, percentage).Some?
    ensures ScanFields(lines + more, percentage) == ScanFields(lines, percentage)
    decreases |lines|
  {
    var all := lines + more;
    var line := lines[0];
    assert all[0] == line;
    assert all[1..] == lines[1..] + more;
    var pct := NextPercentage(line, percentage);
    if !IsStateLine(line) {
      ScanFieldsPrefix(lines[1..], more, pct.value);
    }
  }

  /** A parsed block and the number of lines it took after its sentinel line. */
  datatype Block = Block(record: SynapseBatteryStats, used: nat)

  /** What a sentinel line starts: stamp the date, read the
      device-name line, then run the field loop from a zero percentage.
      `None` is any exception on the way: a sentinel line shorter than the
      timestamp, a timestamp `DateTime.Parse` rejects, a name line that is
      missing, empty or ends in a colon, or a failing field loop. */
  function ParseRecord(header: string, rest: seq<string>, validDate: DateCheck): (r: Option<Block>)
    ensures r.Some? ==> 2 <= r.value.used <= |rest|
  {
    if |header| < DATE_LENGTH || !validDate(header[..DATE_LENGTH]) then None
    else if |rest| == 0 then None
    else match AfterLastColon(rest[0])
      case None => None
      case Some(name) =>
        match ScanFields(rest[1..], 0)
        case None => None
        case Some(f) =>
          Some(Block(SynapseBatteryStats(header[..DATE_LENGTH], name, f.chargingState, f.percentage), f.used + 1))
  }

  /** A parsed block carries the sentinel line's timestamp text, the name from
      the line after it, and the field run's state and percentage. */
  lemma ParseRecordResult(header: string, rest: seq<string>, validDate: DateCheck)
    requires ParseRecord(header, rest, validDate).Some?
    ensures var b := ParseRecord(header, rest, validDate).value;
            && |header| >= DATE_LENGTH && validDate(header[..DATE_LENGTH])
            && b.record.updateDate == header[..DATE_LENGTH]
            && AfterLastColon(rest[0]) == Some(b.record.deviceName)
            && ScanFields(rest[1..], 0) == Some(Fields(b.record.percentage, b.record.chargingState, b.used - 1))
  {
  }

  /** The state comes from the first state line after the name line. */
  lemma ParseRecordState(header: string, rest: seq<string>, validDate: DateCheck)
    requires ParseRecord(header, rest, validDate).Some?
    ensures var b := ParseRecord(header, rest, validDate).value;
            && IsStateLine(rest[b.used - 1])
            && (forall j :: 1 <= j < b.used - 1 ==> !IsStateLine(rest[j]))
            && AfterLastColon(rest[b.used - 1]) == Some(b.record.chargingState)
  {
    var b := ParseRecord(header, rest, validDate).value;
    ParseRecordResult(header, rest, validDate);
    var fields := rest[1..];
    ScanFieldsStopsAtState(fields, 0);
    assert rest[b.used - 1] == fields[b.used - 2];
    forall j | 1 <= j < b.used - 1 ensures !IsStateLine(rest[j]) {
      assert rest[j] == fields[j - 1];
    }
  }

  /** The percentage is the last one read before the state line, or 0 when
      there was none. */
  lemma ParseRecordPercentage(header: string, rest: seq<string>, validDate: DateCheck)
    requires ParseRecord(header, rest, validDate).Some?
    ensures var b := ParseRecord(header, rest, validDate).value;
            b.record.percentage == LastPercentage(rest[1..b.used], 0)
  {
    var b := ParseRecord(header, rest, validDate).value;
    ParseRecordResult(header, rest, validDate);
    var fields := rest[1..];
    ScanFieldsPercentage(fields, 0);
    assert fields[..b.used - 1] == rest[1..b.used];
  }

  /** A block fails exactly when the timestamp is short or rejected, the name
      line is missing, empty or ends in a colon, or no well-formed field run
      follows. */
  lemma ParseRecordFailsIff(header: string, rest: seq<string>, validDate: DateCheck)
    ensures ParseRecord(header, rest, validDate).None? <==>
              || |header| < DATE_LENGTH || !validDate(header[..DATE_LENGTH])
              || |rest| == 0 || AfterLastColon(rest[0]).None?
              || !exists k :: BlockEndsAt(rest[1..], k)
  {
    if |rest| > 0 {
      ScanFieldsSucceedsIff(rest[1..], 0);
    }
  }

  lemma ParseRecordPrefix(header: string, rest: seq<string>, more: seq<string>, validDate: DateCheck)
    requires ParseRecord(header, rest, validDate).Some?
    ensures ParseRecord(header, rest + more, validDate) == ParseRecord(header, rest, validDate)
  {
    assert (rest + more)[0] == rest[0];
    assert (rest + more)[1..] == rest[1..] + more;
    ScanFieldsPrefix(rest[1..], more, 0);
  }

  /** A `Key: value` line whose value has no colon yields exactly the value,
      whatever the key. */
  lemma AfterColonSpace(key: string, value: string)
    requires Free(value, ':')
    ensures AfterLastColon(key + ": " + value) == Some(value)
  {
    var line := key + ": " + value;
    ColonAt(line, |key|);
    forall j | |key| < j ensures !OccursAt(line, ":", j) {
      if j < |line| {
        ColonAt(line, j);
        if j > |key| + 1 {
          assert line[j] == value[j - |key| - 2];
        }
      }
    }
    assert line[|key| + 2..] == value;
  }

  /** A percentage line is not a state line: its only colon ends the
      percentage key. */
  lemma PercentLineShape(value: string)
    requires Free(value, ':')
    ensures var line := PERCENTAGE_FIELD + " " + value;
            IsPercentLine(line) && !IsStateLine(line)
  {
    var line := PERCENTAGE_FIELD + " " + value;
    assert OccursAt(line, PERCENTAGE_FIELD, 0);
    forall j | 0 <= j <= |line| - |STATE_FIELD| ensures !OccursAt(line, STATE_FIELD, j) {
      if j + 13 >= 20 {
        assert line[j + 13] == value[j + 13 - 20];
      }
      assert line[j + 13] != ':' || line[j] != 'B';
      assert line[j..j + 14][0] == line[j] && line[j..j + 14][13] == line[j + 13];
    }
  }

  /** A state line is not a percentage line: its only colon ends the state
      key, before where a percentage key could end. */
  lemma StateLineShape(value: string)
    requires Free(value, ':')
    ensures var line := STATE_FIELD + " " + value;
            IsStateLine(line) && !IsPercentLine(line)
  {
    var line := STATE_FIELD + " " + value;
    assert OccursAt(line, STATE_FIELD, 0);
    forall j | 0 <= j <= |line| - |PERCENTAGE_FIELD| ensures !OccursAt(line, PERCENTAGE_FIELD, j) {
      assert line[j + 18] == value[j + 18 - 15];
      assert line[j..j + 19][18] == line[j + 18];
    }
  }

  /** A percentage line printing a 32-bit `n` reads as `n`. */
  lemma PercentLineValue(n: int)
    requires InInt32(n)
    ensures var line := PERCENTAGE_FIELD + " " + FormatInt(n);
            IsPercentLine(line) && !IsStateLine(line) && PercentValue(line) == Some(n)
  {
    FormatIntShape(n);
    PercentLineShape(FormatInt(n));
    assert PERCENTAGE_FIELD + " " + FormatInt(n) == "Battery Percentage" + ": " + FormatInt(n);
    AfterColonSpace("Battery Percentage", FormatInt(n));
    ParseFormat(n);
  }

  /** A state line carries its colon-free state as its value. */
  lemma StateLineValue(state: string)
    requires Free(state, ':')
    ensures var line := STATE_FIELD + " " + state;
            IsStateLine(line) && !IsPercentLine(line) && AfterLastColon(line) == Some(state)
  {
    StateLineShape(state);
    assert STATE_FIELD + " " + state == "Battery State" + ": " + state;
    AfterColonSpace("Battery State", state);
  }

  /** A percentage line followed by a state line ends the field loop with
      the percentage line's value and the state line's value. */
  lemma ScanTwoFields(pctLine: string, stateLine: string, n: int, state: string, percentage: int)
    requires IsPercentLine(pctLine) && !IsStateLine(pctLine) && PercentValue(pctLine) == Some(n)
    requires IsStateLine(stateLine) && AfterLastColon(stateLine) == Some(state)
    requires !IsPercentLine(stateLine)
    ensures ScanFields([pctLine, stateLine], percentage) == Some(Fields(n, state, 2))
  {
    assert ScanFields([stateLine], n) == Some(Fields(n, state, 1)) by {
      assert [stateLine][1..] == [];
    }
    assert [pctLine, stateLine][1..] == [stateLine];
  }

  /** The field lines of a well-formed block: a percentage line printing `n`
      and then a state line end the field loop with `n` and that state. */
  lemma ScanWellFormedFields(n: int, state: string, percentage: int)
    requires Free(state, ':') && InInt32(n)
    ensures ScanFields([PERCENTAGE_FIELD + " " + FormatInt(n), STATE_FIELD + " " + state], percentage)
              == Some(Fields(n, state, 2))
  {
    PercentLineValue(n);
    StateLineValue(state);
    ScanTwoFields(PERCENTAGE_FIELD + " " + FormatInt(n), STATE_FIELD + " " + state, n, state, percentage);
  }

  /** Lines that are neither percentage nor state lines are read past
      without effect: the field loop only counts them. */
  lemma {:induction false} ScanFieldsSkips(middle: seq<string>, rest: seq<string>, percentage: int)
    requires forall i :: 0 <= i < |middle| ==> !IsPercentLine(middle[i]) && !IsStateLine(middle[i])
    ensures ScanFields(rest, percentage).None? ==> ScanFields(middle + rest, percentage).None?
    ensures ScanFields(rest, percentage).Some? ==>
              var f := ScanFields(rest, percentage).value;
              ScanFields(middle + rest, percentage) == Some(Fields(f.percentage, f.chargingState, f.used + |middle|))
    decreases |middle|
  {
    if |middle| > 0 {
      assert (middle + rest)[0] == middle[0];
      assert (middle + rest)[1..] == middle[1..] + rest;
      ScanFieldsSkips(middle[1..], rest, percentage);
    } else {
      assert middle + rest == rest;
    }
  }

  /** A name line with a value and a successful field run make a block. */
  lemma ParseNamedBlock(header: string, nameLine: string, fields: seq<string>, name: string, f: Fields, validDate: DateCheck)
    requires |header| >= DATE_LENGTH && validDate(header[..DATE_LENGTH])
    requires AfterLastColon(nameLine) == Some(name) && ScanFields(fields, 0) == Some(f)
    ensures ParseRecord(header, [nameLine] + fields, validDate)
              == Some(Block(SynapseBatteryStats(header[..DATE_LENGTH], name, f.chargingState, f.percentage), f.used + 1))
  {
    assert ([nameLine] + fields)[1..] == fields;
  }

  /** The lines of a well-formed log block after its sentinel line: a
      `Key: name` line, any lines that are neither percentage nor state lines,
      a percentage line printing `n`, and a state line. */
  function WellFormedBlock(key: string, name: string, middle: seq<string>, n: int, state: string): (r: seq<string>)
    ensures |r| == |middle| + 3
  {
    [key + ": " + name] + middle + [PERCENTAGE_FIELD + " " + FormatInt(n), STATE_FIELD + " " + state]
  }

  /** A well-formed log block parses to a record with its name, percentage
      and state, dated by the sentinel line's timestamp, and uses every one of
      its lines. */
  lemma ParseWellFormedBlock(header: string, key: string, name: string, middle: seq<string>, n: int, state: string,
                             validDate: DateCheck)
    requires |header| >= DATE_LENGTH && validDate(header[..DATE_LENGTH])
    requires Free(name, ':') && Free(state, ':') && InInt32(n)
    requires forall i :: 0 <= i < |middle| ==> !IsPercentLine(middle[i]) && !IsStateLine(middle[i])
    ensures ParseRecord(header, WellFormedBlock(key, name, middle, n, state), validDate)
              == Some(Block(SynapseBatteryStats(header[..DATE_LENGTH], name, state, n), |middle| + 3))
  {
    var tail := [PERCENTAGE_FIELD + " " + FormatInt(n), STATE_FIELD + " " + state];
    AfterColonSpace(key, name);
    ScanWellFormedFields(n, state, 0);
    ScanFieldsSkips(middle, tail, 0);
    ParseNamedBlock(header, key + ": " + name, middle + tail, name, Fields(n, state, |middle| + 2), validDate);
    assert [key + ": " + name] + (middle + tail) == WellFormedBlock(key, name, middle, n, state);
  }

  /** A sentinel line followed by a well-formed block stores that block's
      record under its device name and completes the pass. */
  lemma ParseLinesWellFormedBlock(header: string, key: string, name: string, middle: seq<string>, n: int, state: string,
                                  stats: Cache, validDate: DateCheck)
    requires IsSentinel(header) && |header| >= DATE_LENGTH && validDate(header[..DATE_LENGTH])
    requires Free(name, ':') && Free(state, ':') && InInt32(n)
    requires forall i :: 0 <= i < |middle| ==> !IsPercentLine(middle[i]) && !IsStateLine(middle[i])
    ensures ParseLines([header] + WellFormedBlock(key, name, middle, n, state), stats, validDate)
              == Completed(stats[name := SynapseBatteryStats(header[..DATE_LENGTH], name, state, n)])
  {
    var lines := [header] + WellFormedBlock(key, name, middle, n, state);
    assert lines[0] == header && lines[1..] == WellFormedBlock(key, name, middle, n, state);
    ParseWellFormedBlock(header, key, name, middle, n, state, validDate);
    assert lines[1 + |middle| + 3..] == [];
  }

  // ---------------------------------------------------------------------
  // The outer read loop
  // ---------------------------------------------------------------------

  /** The outer loop, one line at a time, over the lines
      read after the seek.  Lines outside a block are skipped; each complete
      block is upserted under its device name; a broken block aborts the pass
      with the cache as it stood.  Entries are never removed. */
  function ParseLines(lines: seq<string>, stats: Cache, validDate: DateCheck): (r: Pass<Cache>)
    ensures stats.Keys <= r.stats.Keys
    decreases |lines|
  {
    if |lines| == 0 then Completed(stats)
    else if !IsSentinel(lines[0]) then ParseLines(lines[1..], stats, validDate)
    else match ParseRecord(lines[0], lines[1..], validDate)
      case None => Aborted(stats)
      case Some(b) => ParseLines(lines[1 + b.used..], stats[b.record.deviceName := b.record], validDate)
  }

  /** Every entry a pass writes is keyed by its own device name. */
  lemma {:induction false} ParseLinesKeyed(lines: seq<string>, stats: Cache, validDate: DateCheck)
    ensures var r := ParseLines(lines, stats, validDate);
            forall k :: k in r.stats ==> (k in stats && r.stats[k] == stats[k]) || r.stats[k].deviceName == k
    decreases |lines|
  {
    if |lines| > 0 {
      if !IsSentinel(lines[0]) {
        ParseLinesKeyed(lines[1..], stats, validDate);
      } else {
        match ParseRecord(lines[0], lines[1..], validDate)
        case None =>
        case Some(b) =>
          var next := stats[b.record.deviceName := b.record];
          ParseLinesKeyed(lines[1 + b.used..], next, validDate);
      }
    }
  }

  /** A pass over lines without a sentinel completes and changes nothing. */
  lemma {:induction false} ParseLinesQuiet(lines: seq<string>, stats: Cache, validDate: DateCheck)
    requires forall i :: 0 <= i < |lines| ==> !IsSentinel(lines[i])
    ensures ParseLines(lines, stats, validDate) == Completed(stats)
    decreases |lines|
  {
    if |lines| > 0 {
      assert forall i :: 1 <= i < |lines| ==> lines[1..][i - 1] == lines[i];
      ParseLinesQuiet(lines[1..], stats, validDate);
    }
  }

  /** A complete block is stored under its name, overwriting only that key, and
      reading resumes right after its state line. */
  lemma StoresCompleteBlock(lines: seq<string>, stats: Cache, validDate: DateCheck)
    requires |lines| > 0 && IsSentinel(lines[0])
    requires ParseRecord(lines[0], lines[1..], validDate).Some?
    ensures var b := ParseRecord(lines[0], lines[1..], validDate).value;
            ParseLines(lines, stats, validDate) ==
              ParseLines(lines[1 + b.used..], stats[b.record.deviceName := b.record], validDate)
  {
  }

  /** A broken block aborts the pass, keeping what was stored before it. */
  lemma AbortsOnBrokenBlock(lines: seq<string>, stats: Cache, validDate: DateCheck)
    requires |lines| > 0 && IsSentinel(lines[0])
    requires ParseRecord(lines[0], lines[1..], validDate).None?
    ensures ParseLines(lines, stats, validDate) == Aborted(stats)
  {
  }

  /** The updates a pass makes do not depend on the cache it starts from: the
      pass lays a fixed set of records over whatever was there. */
  lemma {:induction false} ParseOverlay(lines: seq<string>, base: Cache, stats: Cache, validDate: DateCheck)
    ensures ParseLines(lines, base + stats, validDate).stats == base + ParseLines(lines, stats, validDate).stats
    ensures ParseLines(lines, base + stats, validDate).Completed? == ParseLines(lines, stats, validDate).Completed?
    decreases |lines|
  {
    if |lines| == 0 {
    } else if !IsSentinel(lines[0]) {
      ParseOverlay(lines[1..], base, stats, validDate);
    } else {
      match ParseRecord(lines[0], lines[1..], validDate)
      case None =>
      case Some(b) =>
        var k := b.record.deviceName;
        assert (base + stats)[k := b.record] == base + stats[k := b.record];
        ParseOverlay(lines[1 + b.used..], base, stats[k := b.record], validDate);
    }
  }

  /** Once the lines of one read have all been consumed without error, the next
      lines continue from the cache it left. */
  lemma {:induction false} ParseSequential(first: seq<string>, second: seq<string>, stats: Cache, validDate: DateCheck)
    requires ParseLines(first, stats, validDate).Completed?
    ensures ParseLines(first + second, stats, validDate) ==
              ParseLines(second, ParseLines(first, stats, validDate).stats, validDate)
    decreases |first|
  {
    if |first| == 0 {
      assert first + second == second;
    } else {
      var all := first + second;
      assert all[0] == first[0];
      assert all[1..] == first[1..] + second;
      if !IsSentinel(first[0]) {
        ParseSequential(first[1..], second, stats, validDate);
      } else {
        var b := ParseRecord(first[0], first[1..], validDate).value;
        var next := stats[b.record.deviceName := b.record];
        ParseRecordPrefix(first[0], first[1..], second, validDate);
        assert ParseRecord(all[0], all[1..], validDate) == Some(b);
        StoresCompleteBlock(first, stats, validDate);
        StoresCompleteBlock(all, stats, validDate);
        assert all[1 + b.used..] == first[1 + b.used..] + second;
        ParseSequential(first[1 + b.used..], second, next, validDate);
      }
    }
  }

  /** Of two reads, the later one decides every device it mentions: the
      records it finds are laid over the cache the earlier one left. */
  lemma {:induction false} LaterBlockWins(first: seq<string>, second: seq<string>, stats: Cache, validDate: DateCheck)
    requires ParseLines(first, stats, validDate).Completed?
    ensures ParseLines(first + second, stats, validDate).stats ==
              ParseLines(first, stats, validDate).stats + ParseLines(second, map[], validDate).stats
  {
    var mid := ParseLines(first, stats, validDate).stats;
    ParseSequential(first, second, stats, validDate);
    ParseOverlay(second, mid, map[], validDate);
    assert mid + map[] == mid;
  }

  /** A broken block met after a completed stretch of the log aborts the pass,
      and the records that stretch stored stay in the cache. */
  lemma {:induction false} BrokenBlockKeepsEarlier(first: seq<string>, header: string, rest: seq<string>,
                                                   stats: Cache, validDate: DateCheck)
    requires ParseLines(first, stats, validDate).Completed?
    requires IsSentinel(header) && ParseRecord(header, rest, validDate).None?
    ensures ParseLines(first + [header] + rest, stats, validDate) ==
              Aborted(ParseLines(first, stats, validDate).stats)
  {
    var tail := [header] + rest;
    assert first + [header] + rest == first + tail;
    assert tail[0] == header && tail[1..] == rest;
    ParseSequential(first, tail, stats, validDate);
    AbortsOnBrokenBlock(tail, ParseLines(first, stats, validDate).stats, validDate);
  }

  // ---------------------------------------------------------------------
  // RefreshStats as written
  // ---------------------------------------------------------------------

  /** Reading from `offset` onwards: `Seek` past the end reads nothing. */
  function Drop(lines: seq<string>, offset: nat): (r: seq<string>)
    ensures offset <= |lines| ==> lines == lines[..offset] + r
    ensures offset >= |lines| ==> r == []
  {
    if offset <= |lines| then lines[offset..] else []
  }

  /** `RefreshStats` as the source writes it.  The offset it compares against is
      a local variable initialised from the current length one line earlier,
      so the idle branch is always taken: a refresh never changes the cache,
      whether the file is missing, unchanged or has grown. */
  function RefreshStats(log: Option<seq<string>>, stats: Cache, validDate: DateCheck): (r: Cache)
    ensures r == stats
  {
    match log
    case None => stats
    case Some(lines) =>
      var lastMaxOffset: nat := |lines|;
      if |lines| == lastMaxOffset then stats
      else ParseLines(Drop(lines, lastMaxOffset), stats, validDate).stats
  }

  // ---------------------------------------------------------------------
  // RefreshStats with the offset kept between calls
  // ---------------------------------------------------------------------

  /** The reader's state if `lastMaxOffset` were a field: how many lines have
      been consumed, and the cache. */
  datatype Tail = Tail(offset: nat, stats: Cache)

  /** The evidently intended refresh: idle when the length equals the stored
      offset, otherwise parse the lines after it and, if the loop ran to the
      end of the file, move the offset to the position reached.  An aborted
      pass keeps the offset, since the assignment after the loop is skipped. */
  function RefreshTracked(tail: Tail, log: Option<seq<string>>, validDate: DateCheck): (r: Tail)
    ensures r.offset >= tail.offset
    ensures tail.stats.Keys <= r.stats.Keys
    ensures log.None? || |log.value| <= tail.offset ==> r == tail
    ensures log.Some? && tail.offset < |log.value| ==>
              r.stats == tail.stats + ParseLines(log.value[tail.offset..], map[], validDate).stats
    ensures log.Some? && tail.offset < |log.value| ==>
              r.offset == (if ParseLines(log.value[tail.offset..], map[], validDate).Completed?
                           then |log.value| else tail.offset)
  {
    if log.None? then tail
    else
      var lines := log.value;
      if |lines| == tail.offset then tail
      else
        var pass := ParseLines(Drop(lines, tail.offset), tail.stats, validDate);
        ParseOverlay(Drop(lines, tail.offset), tail.stats, map[], validDate);
        assert tail.stats + map[] == tail.stats;
        match pass
        case Completed(m) => Tail(if tail.offset > |lines| then tail.offset else |lines|, m)
        case Aborted(m) => Tail(tail.offset, m)
  }

  /** Refreshing twice against the same file leaves the cache as one refresh
      did: the first pass either consumed everything, or the second repeats
      its updates. */
  lemma RefreshTrackedIdempotent(tail: Tail, log: Option<seq<string>>, validDate: DateCheck)
    ensures RefreshTracked(RefreshTracked(tail, log, validDate), log, validDate).stats
            == RefreshTracked(tail, log, validDate).stats
  {
    if log.Some? && |log.value| != tail.offset {
      var lines := log.value;
      var once := RefreshTracked(tail, log, validDate);
      if tail.offset < |lines| {
        var u := ParseLines(lines[tail.offset..], map[], validDate);
        if !u.Completed? {
          assert once.offset == tail.offset;
          assert once.stats == tail.stats + u.stats;
          assert (tail.stats + u.stats) + u.stats == tail.stats + u.stats;
        }
      }
    }
  }

  /** The two refreshes part ways on every log that has grown by a complete
      block since the offset: the corrected one stores the block's device, the
      one as written does not. */
  lemma RefreshIgnoresAppendedBlock(lines: seq<string>, offset: nat, validDate: DateCheck)
    requires offset < |lines| && IsSentinel(lines[offset])
    requires ParseRecord(lines[offset], lines[offset + 1..], validDate).Some?
    ensures var name := ParseRecord(lines[offset], lines[offset + 1..], validDate).value.record.deviceName;
            && name in RefreshTracked(Tail(offset, map[]), Some(lines), validDate).stats
            && name !in RefreshStats(Some(lines), map[], validDate)
  {
    var rest := lines[offset..];
    assert rest[0] == lines[offset] && rest[1..] == lines[offset + 1..];
    StoresCompleteBlock(rest, map[], validDate);
  }

  // ---------------------------------------------------------------------
  // Queries
  // ---------------------------------------------------------------------

  /** `GetBatteryStats`: the record stored under exactly this name, or `None`. */
  function GetBatteryStats(stats: Cache, deviceName: string): (r: Option<SynapseBatteryStats>)
    ensures r.Some? <==> deviceName in stats
    ensures r.Some? ==> r.value == stats[deviceName]
  {
    Lookup(stats, deviceName)
  }

  /** `GetAllDevices`: refreshes first when the cache is empty, then lists its
      keys.  Because the refresh is idle, the listing is the cache's key set
      and the cache is untouched. */
  function GetAllDevices(stats: Cache, log: Option<seq<string>>, validDate: DateCheck): (r: Listing<SynapseBatteryStats>)
    ensures r.stats == stats
    ensures r.names == stats.Keys
  {
    var m := if |stats| == 0 then RefreshStats(log, stats, validDate) else stats;
    Listing(m, m.Keys)
  }

  /** `GetAllDevices` over the corrected refresh: the reader state afterwards
      and the names listed. */
  datatype TrackedListing = TrackedListing(tail: Tail, names: set<string>)

  /** `GetAllDevices` as it behaves once the offset is kept: an empty cache is
      filled from the unread part of the log, and the listing is its keys. */
  function GetAllDevicesTracked(tail: Tail, log: Option<seq<string>>, validDate: DateCheck): (r: TrackedListing)
    ensures |tail.stats| > 0 ==> r.tail == tail
    ensures r.names == r.tail.stats.Keys
    ensures |tail.stats| == 0 && log.Some? && tail.offset < |log.value| ==>
              r.names == ParseLines(log.value[tail.offset..], map[], validDate).stats.Keys
  {
    var t := if |tail.stats| == 0 then RefreshTracked(tail, log, validDate) else tail;
    assert |tail.stats| == 0 ==> tail.stats == map[];
    TrackedListing(t, t.stats.Keys)
  }

  /** A device is listed exactly when a lookup for it succeeds. */
  lemma ListedIffFound(stats: Cache, log: Option<seq<string>>, validDate: DateCheck, deviceName: string)
    ensures deviceName in GetAllDevices(stats, log, validDate).names
            <==> GetBatteryStats(stats, deviceName).Some?
  {
  }
}
