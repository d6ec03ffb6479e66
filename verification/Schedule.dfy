/** From the timestamps of a script to the times packets are sent at. */
module Schedule {
  import opened SendPipeline
  import opened PacketData

  const U64: nat := 0x1_0000_0000_0000_0000

  type Micros = t: nat | t < 0x1_0000_0000_0000_0000

  // ------------------------------------------------------------------------------------------
  // What the timestamps mean
  // ------------------------------------------------------------------------------------------

  datatype Stamp = Default | Relative(ticks: nat) | Absolute(ticks: nat)

  /** The unit of timestamps in microseconds, and the default delay in microseconds. */
  datatype Clock = Clock(scale: nat, defaultDelay: nat) {
    function Scaled(ticks: nat): Micros {
      ticks * scale % 0x1_0000_0000_0000_0000
    }

    /** The default delay counts in whole units. */
    function Delay(s: Stamp): Micros
      requires scale > 0 && !s.Absolute?
    {
      Scaled(if s.Default? then defaultDelay / scale else s.ticks)
    }
  }

  datatype Timeline = Aborted | Timeline(times: seq<Micros>)

  function Latest(times: seq<Micros>, start: Micros): Micros {
    if times == [] then start else times[|times| - 1]
  }

  /** The time of every instruction of one file that starts at start. An absolute time counts from there; one
      that lies in the past aborts the program. */
  function Times(c: Clock, stamps: seq<Stamp>, start: Micros, base: Micros): Timeline
    requires c.scale > 0
  {
    if stamps == [] then Timeline([])
    else
      var t := Times(c, stamps[..|stamps| - 1], start, base);
      if t.Aborted? then Aborted
      else
        var n := NextTime(c, stamps[|stamps| - 1], Latest(t.times, start), base);
        if n < 0 then Aborted else Timeline(t.times + [n])
  }

  /** Negative when the instruction lies in the past. */
  function NextTime(c: Clock, s: Stamp, current: Micros, base: Micros): (r: int)
    requires c.scale > 0
    ensures r < U64
  {
    if s.Absolute? then
      var t := (c.Scaled(s.ticks) + base) % U64;
      if t < current then -1 else t
    else (current + c.Delay(s)) % U64
  }

  /** One file after the other; each starts where the one before it ended. */
  function ScriptTimes(c: Clock, files: seq<seq<Stamp>>): Timeline
    requires c.scale > 0
  {
    if files == [] then Timeline([])
    else
      var t := ScriptTimes(c, files[..|files| - 1]);
      if t.Aborted? then Aborted
      else
        var start := Latest(t.times, 0);
        var u := Times(c, files[|files| - 1], start, start);
        if u.Aborted? then Aborted else Timeline(t.times + u.times)
  }

  // ------------------------------------------------------------------------------------------
  // Compilation to delays
  // ------------------------------------------------------------------------------------------

  /** Every packet carries the time since the one before it, in 64-bit arithmetic. */
  ghost predicate Carries(items: seq<Linkable>, times: seq<Micros>)
    reads items
  {
    |items| == |times| && forall i | 0 <= i < |items| :: items[i].time == Difference(times, i)
  }

  function Difference(times: seq<Micros>, i: nat): Micros
    requires i < |times|
  {
    (times[i] as int - if i == 0 then 0 else times[i - 1] as int) % 0x1_0000_0000_0000_0000
  }

  datatype Parsed = Parsed(packet: Linkable, hasTimestamp: bool, timestamp: nat, isAbsolute: bool) {
    function Stamp(): Stamp {
      if !hasTimestamp then Default else if isAbsolute then Absolute(timestamp) else Relative(timestamp)
    }
  }

  function Stamps(input: seq<Parsed>): (s: seq<Stamp>)
    ensures |s| == |input| && forall i | 0 <= i < |input| :: s[i] == input[i].Stamp()
  {
    seq(|input|, i requires 0 <= i < |input| => input[i].Stamp())
  }

  function Packets(input: seq<Parsed>): (s: seq<Linkable>)
    ensures |s| == |input| && forall i | 0 <= i < |input| :: s[i] == input[i].packet
  {
    seq(|input|, i requires 0 <= i < |input| => input[i].packet)
  }

  // ------------------------------------------------------------------------------------------
  // What a script asks for, instruction by instruction
  // ------------------------------------------------------------------------------------------

  /** May an instruction be due at that time, when the one before it is due at previous and absolute times
      count from base? Times are in microseconds and wrap at 64 bits. */
  predicate Due(c: Clock, p: Parsed, previous: Micros, base: Micros, due: Micros)
    requires c.scale > 0
  {
    && (p.hasTimestamp && p.isAbsolute ==>
          due == (p.timestamp * c.scale + base) % 0x1_0000_0000_0000_0000 && due >= previous)
    && (p.hasTimestamp && !p.isAbsolute ==> due == (previous + p.timestamp * c.scale) % 0x1_0000_0000_0000_0000)
    && (!p.hasTimestamp ==> due == (previous + c.defaultDelay / c.scale * c.scale) % 0x1_0000_0000_0000_0000)
  }

  /** The time of the instruction in front of instruction i. */
  function Previous(times: seq<Micros>, i: nat, start: Micros): Micros
    requires i <= |times|
  {
    if i == 0 then start else times[i - 1]
  }

  /** Every instruction of a file is due at its time. */
  predicate Follows(c: Clock, input: seq<Parsed>, start: Micros, base: Micros, times: seq<Micros>)
    requires c.scale > 0
  {
    && |times| == |input|
    && forall i | 0 <= i < |input| :: Due(c, input[i], Previous(times, i, start), base, times[i])
  }

  /** Every file starts, and counts its absolute times from, where the ones before it ended. */
  predicate ScriptFollows(c: Clock, files: seq<seq<Parsed>>, times: seq<Micros>)
    requires c.scale > 0
  {
    if files == [] then times == []
    else
      var last := files[|files| - 1];
      var n := |times| - |last|;
      n >= 0
      && ScriptFollows(c, files[..|files| - 1], times[..n])
      && var start := Previous(times, n, 0);
         Follows(c, last, start, start, times[n..])
  }

  lemma ModOfSum(a: nat, b: nat)
    ensures (a % 0x1_0000_0000_0000_0000 + b) % 0x1_0000_0000_0000_0000 == (a + b) % 0x1_0000_0000_0000_0000
  {
  }

  lemma DueExactlyWhen(c: Clock, p: Parsed, previous: Micros, base: Micros, due: Micros)
    requires c.scale > 0
    ensures Due(c, p, previous, base, due) <==> NextTime(c, p.Stamp(), previous, base) == due
    ensures NextTime(c, p.Stamp(), previous, base) < 0 <==>
              p.hasTimestamp && p.isAbsolute && (p.timestamp * c.scale + base) % 0x1_0000_0000_0000_0000 < previous
  {
    hide NextTime;
    NextTimeCases(c, p.Stamp(), previous, base);
    ModOfSum(p.timestamp * c.scale, base);
    ModOfSum(p.timestamp * c.scale, previous);
    ModOfSum(c.defaultDelay / c.scale * c.scale, previous);
  }

  lemma DueIsNext(c: Clock, p: Parsed, previous: Micros, base: Micros)
    requires c.scale > 0
    ensures forall due :: Due(c, p, previous, base, due) <==> NextTime(c, p.Stamp(), previous, base) == due
  {
    hide Due, NextTime;
    forall due: Micros
      ensures Due(c, p, previous, base, due) <==> NextTime(c, p.Stamp(), previous, base) == due
    {
      DueExactlyWhen(c, p, previous, base, due);
    }
  }

  /** The times computed are the ones asked for, and none are computed when there are none. */
  lemma {:induction false} FollowsExactlyWhen(c: Clock, input: seq<Parsed>, start: Micros, base: Micros, times: seq<Micros>)
    requires c.scale > 0
    ensures Follows(c, input, start, base, times) <==> Times(c, Stamps(input), start, base) == Timeline(times)
  {
    hide Due, NextTime, Stamps, Times, Follows, Latest;
    FollowsUnfold(c, input, start, base, times);
    TimesUnfold(c, input, start, base);
    if input != [] && times != [] {
      var n, m := |input| - 1, |times| - 1;
      FollowsExactlyWhen(c, input[..n], start, base, times[..m]);
      DueExactlyWhen(c, input[n], Latest(times[..m], start), base, times[m]);
      assert times == times[..m] + [times[m]];
    }
  }

  lemma FollowsUnfold(c: Clock, input: seq<Parsed>, start: Micros, base: Micros, times: seq<Micros>)
    requires c.scale > 0
    ensures input == [] ==> (Follows(c, input, start, base, times) <==> times == [])
    ensures input != [] && times == [] ==> !Follows(c, input, start, base, times)
    ensures input != [] && times != [] ==>
              var n, m := |input| - 1, |times| - 1;
              Follows(c, input, start, base, times) <==>
                Follows(c, input[..n], start, base, times[..m])
                && Due(c, input[n], Latest(times[..m], start), base, times[m])
  {
    if input != [] && |input| == |times| {
      LastFollows(c, input, start, base, times);
    }
  }

  lemma LastFollows(c: Clock, input: seq<Parsed>, start: Micros, base: Micros, times: seq<Micros>)
    requires c.scale > 0 && input != [] && |input| == |times|
    ensures var n := |input| - 1;
            Follows(c, input, start, base, times) <==>
              Follows(c, input[..n], start, base, times[..n]) && Due(c, input[n], Latest(times[..n], start), base, times[n])
  {
    hide Due, Latest, Previous;
    var n := |input| - 1;
    var input', times' := input[..n], times[..n];
    assert forall i | 0 <= i < n :: input'[i] == input[i] && times'[i] == times[i];
    SamePrevious(times, n, start);
  }

  lemma SamePrevious(times: seq<Micros>, n: nat, start: Micros)
    requires n <= |times|
    ensures Latest(times[..n], start) == Previous(times, n, start)
    ensures forall i | 0 <= i < n :: Previous(times[..n], i, start) == Previous(times, i, start)
  {
  }

  lemma TimesUnfold(c: Clock, input: seq<Parsed>, start: Micros, base: Micros)
    requires c.scale > 0
    ensures input == [] ==> Times(c, Stamps(input), start, base) == Timeline([])
    ensures input != [] ==>
              var n := |input| - 1;
              var t := Times(c, Stamps(input[..n]), start, base);
              Times(c, Stamps(input), start, base) ==
              if t.Aborted? then Aborted
              else
                var next := NextTime(c, input[n].Stamp(), Latest(t.times, start), base);
                if next < 0 then Aborted else Timeline(t.times + [next])
  {
    hide NextTime, Stamps;
    if input != [] {
      var n := |input| - 1;
      assert Stamps(input)[..n] == Stamps(input[..n]);
    }
  }

  lemma {:induction false} ScriptFollowsExactlyWhen(c: Clock, files: seq<seq<Parsed>>, times: seq<Micros>)
    requires c.scale > 0
    ensures ScriptFollows(c, files, times) <==> ScriptTimes(c, FileStamps(files)) == Timeline(times)
  {
    hide Follows, Times, Latest, ScriptTimes, ScriptFollows;
    ScriptFollowsUnfold(c, files, times);
    ScriptTimesUnfold(c, files);
    if files != [] {
      var k := |files| - 1;
      var t := ScriptTimes(c, FileStamps(files[..k]));
      if t.Timeline? {
        var start := Latest(t.times, 0);
        TimesLength(c, Stamps(files[k]), start, start);
        var u := Times(c, Stamps(files[k]), start, start);
        if u.Timeline? && times == t.times + u.times {
          var n := |times| - |files[k]|;
          assert times[..n] == t.times && times[n..] == u.times;
        }
      }
      var n := |times| - |files[k]|;
      if n >= 0 {
        var start := Latest(times[..n], 0);
        ScriptFollowsExactlyWhen(c, files[..k], times[..n]);
        FollowsExactlyWhen(c, files[k], start, start, times[n..]);
        assert times == times[..n] + times[n..];
      }
    }
  }

  lemma OnlyScriptTimesFollow(c: Clock, files: seq<seq<Parsed>>)
    requires c.scale > 0
    ensures forall times :: ScriptFollows(c, files, times) <==> ScriptTimes(c, FileStamps(files)) == Timeline(times)
  {
    hide ScriptFollows, ScriptTimes;
    forall times
      ensures ScriptFollows(c, files, times) <==> ScriptTimes(c, FileStamps(files)) == Timeline(times)
    {
      ScriptFollowsExactlyWhen(c, files, times);
    }
  }

  lemma ScriptFollowsUnfold(c: Clock, files: seq<seq<Parsed>>, times: seq<Micros>)
    requires c.scale > 0
    ensures files == [] ==> (ScriptFollows(c, files, times) <==> times == [])
    ensures files != [] ==>
              var n, k := |times| - |files[|files| - 1]|, |files| - 1;
              ScriptFollows(c, files, times) <==>
                n >= 0 && ScriptFollows(c, files[..k], times[..n])
                && Follows(c, files[k], Latest(times[..n], 0), Latest(times[..n], 0), times[n..])
  {
    hide Follows;
  }

  lemma ScriptTimesUnfold(c: Clock, files: seq<seq<Parsed>>)
    requires c.scale > 0
    ensures files == [] ==> ScriptTimes(c, FileStamps(files)) == Timeline([])
    ensures files != [] ==>
              var k := |files| - 1;
              var t := ScriptTimes(c, FileStamps(files[..k]));
              ScriptTimes(c, FileStamps(files)) ==
              if t.Aborted? then Aborted
              else
                var u := Times(c, Stamps(files[k]), Latest(t.times, 0), Latest(t.times, 0));
                if u.Aborted? then Aborted else Timeline(t.times + u.times)
  {
    hide Times, Latest;
    if files != [] {
      var k := |files| - 1;
      assert FileStamps(files)[..k] == FileStamps(files[..k]);
    }
  }

  lemma {:induction false} TimesLength(c: Clock, stamps: seq<Stamp>, start: Micros, base: Micros)
    requires c.scale > 0
    ensures var t := Times(c, stamps, start, base); t.Timeline? ==> |t.times| == |stamps|
  {
    hide NextTime, Latest;
    if stamps != [] {
      TimesLength(c, stamps[..|stamps| - 1], start, base);
    }
  }

  /** The objects the parser makes are all different. */
  ghost predicate Distinct(packets: seq<Linkable>) {
    && (forall i, j | 0 <= i < j < |packets| :: packets[i] != packets[j])
    && (forall i | 0 <= i < |packets| :: packets[i].Proper())
  }

  lemma NextIsNew(packets: seq<Linkable>, n: nat)
    requires Distinct(packets) && n < |packets|
    ensures packets[n] !in packets[..n] && packets[n].Proper()
    ensures packets[..n] + [packets[n]] == packets[..n + 1]
  {
  }

  lemma TimesSnoc(c: Clock, stamps: seq<Stamp>, start: Micros, base: Micros, n: nat)
    requires c.scale > 0 && n < |stamps|
    ensures stamps[..n + 1][..n] == stamps[..n]
    ensures Times(c, stamps[..n], start, base).Aborted? ==> Times(c, stamps[..n + 1], start, base).Aborted?
    ensures var t := Times(c, stamps[..n], start, base);
            t.Timeline? ==>
              var next := NextTime(c, stamps[n], Latest(t.times, start), base);
              Times(c, stamps[..n + 1], start, base) == if next < 0 then Aborted else Timeline(t.times + [next])
  {
    hide NextTime;
    assert stamps[..n + 1][..n] == stamps[..n];
  }

  lemma {:induction false} AbortedStays(c: Clock, stamps: seq<Stamp>, start: Micros, base: Micros, n: nat)
    requires c.scale > 0 && n <= |stamps|
    requires Times(c, stamps[..n], start, base).Aborted?
    ensures Times(c, stamps, start, base).Aborted?
    decreases |stamps| - n
  {
    if n == |stamps| {
      assert stamps[..n] == stamps;
    } else {
      TimesSnoc(c, stamps, start, base, n);
      AbortedStays(c, stamps, start, base, n + 1);
    }
  }

  /** The delay of a relative instruction is the difference it makes. */
  lemma DelayIsDifference(c: Clock, s: Stamp, current: Micros, base: Micros)
    requires c.scale > 0
    ensures var n := NextTime(c, s, current, base);
            && (!s.Absolute? ==> n >= 0 && (n - current) % U64 == c.Delay(s))
            && (s.Absolute? && n >= 0 ==> n >= current && (n - current) % U64 == n - current)
  {
    hide Clock.Scaled, Clock.Delay;
    if !s.Absolute? {
      var d: nat := c.Delay(s);
      assert current + d < 2 * U64;
    }
  }

  lemma LatestOfBoth(t: seq<Micros>, u: seq<Micros>)
    ensures Latest(t + u, 0) == Latest(u, Latest(t, 0))
  {
  }

  lemma DifferencesKept(times: seq<Micros>, now: Micros, i: nat)
    requires i <= |times|
    ensures Difference(times + [now], i)
            == if i < |times| then Difference(times, i) else (now as int - Latest(times, 0) as int) % U64
  {
  }

  lemma CarriesOneMore(items: seq<Linkable>, known: seq<Micros>, now: Micros)
    requires |items| == |known| + 1
    requires forall i | 0 <= i < |known| :: items[i].time == Difference(known, i)
    requires items[|known|].time == (now as int - Latest(known, 0) as int) % U64
    ensures Carries(items, known + [now])
  {
    hide Difference, Latest;
    forall i | 0 <= i < |items|
      ensures items[i].time == Difference(known + [now], i)
    {
      DifferencesKept(known, now, i);
    }
  }

  class Compiler {
    const clock: Clock
    const data: PacketList
    var hasUserTimestamps: bool

    constructor (clock: Clock)
      ensures this.clock == clock && fresh(data) && data.Valid() && data.items == [] && !hasUserTimestamps
    {
      this.clock := clock;
      hasUserTimestamps := false;
      data := new PacketList();
    }

    /** Gives a packet the time since the one before it and adds it. Fails when its time lies in the past. */
    method AddInstruction(p: Parsed, current: Micros, base: Micros) returns (ok: bool, now: Micros)
      requires clock.scale > 0 && data.Valid() && p.packet !in data.items && p.packet.Proper()
      modifies this`hasUserTimestamps, data, data.items, p.packet
      ensures hasUserTimestamps == (old(hasUserTimestamps) || p.hasTimestamp)
      ensures if ok then Due(clock, p, current, base, now) else forall due :: !Due(clock, p, current, base, due)
      ensures ok <==> NextTime(clock, p.Stamp(), current, base) >= 0
      ensures ok ==> now == NextTime(clock, p.Stamp(), current, base) && data.Valid()
      ensures ok ==> data.items == old(data.items) + [p.packet]
      ensures ok ==> p.packet.time == (now as int - current as int) % U64
      ensures ok ==> forall q | q in old(data.items) :: q.time == old(q.time)
    {
      hide PacketList.Valid, NextTime, Clock.Scaled, Linkable.Proper, Due;
      DueIsNext(clock, p, current, base);
      NextTimeCases(clock, p.Stamp(), current, base);
      DelayIsDifference(clock, p.Stamp(), current, base);
      var ticks := if p.hasTimestamp then p.timestamp else clock.defaultDelay / clock.scale;
      if p.hasTimestamp {
        hasUserTimestamps := true;
      }
      var timestamp := clock.Scaled(ticks);
      if !p.hasTimestamp || !p.isAbsolute {
        ok, now := true, (current + timestamp) % U64;
        Insert(p.packet, timestamp);
      } else {
        timestamp := (timestamp + base) % U64;
        ok, now := timestamp >= current, timestamp;
        if ok {
          Insert(p.packet, timestamp - current);
        }
      }
    }

    method Insert(packet: Linkable, delay: Micros)
      requires data.Valid() && packet !in data.items && packet.Proper()
      modifies data, data.items, packet
      ensures data.Valid() && data.items == old(data.items) + [packet]
      ensures packet.time == delay
      ensures forall q | q in old(data.items) :: q.time == old(q.time)
    {
      packet.time := delay;
      data.AddPacket(packet);
    }

    /** Adds the instructions of one file, or of the command line. */
    method AddInstructions(input: seq<Parsed>, start: Micros, base: Micros, ghost before: seq<Micros>)
      returns (ok: bool, current: Micros)
      requires clock.scale > 0 && data.Valid() && Distinct(data.items + Packets(input))
      requires Carries(data.items, before) && start == Latest(before, 0)
      modifies this`hasUserTimestamps, data, data.items, Packets(input)
      ensures var t := Times(clock, Stamps(input), start, base);
              && (ok <==> t.Timeline?)
              && (ok ==> data.Valid() && data.items == old(data.items) + Packets(input)
                         && Carries(data.items, before + t.times) && current == Latest(before + t.times, 0))
    {
      hide PacketList.Valid, NextTime, Times, Difference, Latest, Linkable.Proper, Clock.Scaled, Due, Distinct;
      ghost var all := data.items + Packets(input);
      ghost var stamps := Stamps(input);
      ghost var times: seq<Micros> := [];
      ok, current := true, start;
      var n := 0;
      NoTimes(clock, start, base);
      assert stamps[..0] == [] && before + times == before;
      while n < |input|
        invariant 0 <= n <= |input|
        invariant data.Valid() && data.items == all[..|before| + n]
        invariant Times(clock, stamps[..n], start, base) == Timeline(times)
        invariant Carries(data.items, before + times) && current == Latest(before + times, 0)
      {
        TimesSnoc(clock, stamps, start, base, n);
        LatestOfBoth(before, times);
        NextIsNew(all, |before| + n);
        ok, current := AddInstruction(input[n], current, base);
        if !ok {
          AbortedStays(clock, stamps, start, base, n + 1);
          return;
        }
        ghost var known := before + times;
        times := times + [current];
        assert before + times == known + [current];
        CarriesOneMore(data.items, known, current);
        LatestIs(known, current);
        n := n + 1;
      }
      assert stamps[..n] == stamps;
    }

    /** Instructions of the command line: absolute times count from zero. */
    method ProcessPackets(input: seq<Parsed>) returns (ok: bool)
      requires clock.scale > 0 && data.Valid() && data.items == [] && Distinct(Packets(input))
      modifies this`hasUserTimestamps, data, Packets(input)
      ensures var t := Times(clock, Stamps(input), 0, 0);
              && (ok <==> t.Timeline?)
              && (ok ==> data.Valid() && data.items == Packets(input) && Carries(data.items, t.times))
              && (ok ==> Follows(clock, input, 0, 0, t.times))
      ensures !ok ==> forall times :: !Follows(clock, input, 0, 0, times)
    {
      hide PacketList.Valid, Times, Difference, Linkable.Proper, Follows;
      var now;
      assert [] + Packets(input) == Packets(input);
      ok, now := AddInstructions(input, 0, 0, []);
      ghost var t := Times(clock, Stamps(input), 0, 0);
      assert ok ==> [] + t.times == t.times;
      forall times
        ensures Follows(clock, input, 0, 0, times) <==> t == Timeline(times)
      {
        FollowsExactlyWhen(clock, input, 0, 0, times);
      }
    }

    /** Script files: in every file absolute times count from the end of the file before it. */
    method ProcessScriptFiles(files: seq<seq<Parsed>>) returns (ok: bool)
      requires clock.scale > 0 && data.Valid() && data.items == [] && Distinct(Packets(Joined(files)))
      modifies this`hasUserTimestamps, data, Packets(Joined(files))
      ensures var t := ScriptTimes(clock, FileStamps(files));
              && (ok <==> t.Timeline?)
              && (ok ==> data.Valid() && data.items == Packets(Joined(files)) && Carries(data.items, t.times))
              && (ok ==> ScriptFollows(clock, files, t.times))
      ensures !ok ==> forall times :: !ScriptFollows(clock, files, times)
    {
      hide PacketList.Valid, Times, ScriptTimes, Difference, Linkable.Proper, Joined, Latest, ScriptFollows;
      OnlyScriptTimesFollow(clock, files);
      ghost var stamps := FileStamps(files);
      ghost var times: seq<Micros> := [];
      var current: Micros, n := 0, 0;
      ok := true;
      FilesUnfold(clock, files, 0);
      while n < |files|
        invariant 0 <= n <= |files|
        invariant data.Valid() && data.items == Packets(Joined(files[..n]))
        invariant ScriptTimes(clock, stamps[..n]) == Timeline(times)
        invariant Carries(data.items, times) && current == Latest(times, 0)
      {
        FilesUnfold(clock, files, n);
        FilePacketsBelong(files, n);
        ghost var own, all := Packets(files[n]), Packets(Joined(files));
        assert forall i | 0 <= i < |own| :: own[i] in all;
        assert forall i | 0 <= i < |data.items| :: data.items[i] in all;
        ok, current := AddInstructions(files[n], current, current, times);
        if !ok {
          ScriptAborted(clock, stamps, n + 1);
          return;
        }
        times := ScriptTimes(clock, stamps[..n + 1]).times;
        n := n + 1;
      }
      assert stamps[..n] == stamps && files[..n] == files;
    }
  }

  function Joined(files: seq<seq<Parsed>>): seq<Parsed> {
    if files == [] then [] else Joined(files[..|files| - 1]) + files[|files| - 1]
  }

  function FileStamps(files: seq<seq<Parsed>>): (s: seq<seq<Stamp>>)
    ensures |s| == |files| && forall i | 0 <= i < |files| :: s[i] == Stamps(files[i])
  {
    seq(|files|, i requires 0 <= i < |files| => Stamps(files[i]))
  }

  lemma FilesUnfold(c: Clock, files: seq<seq<Parsed>>, n: nat)
    requires c.scale > 0 && n <= |files|
    ensures Joined([]) == [] && ScriptTimes(c, []) == Timeline([]) && Latest([], 0) == 0
    ensures n < |files| ==>
              && Joined(files[..n + 1]) == Joined(files[..n]) + files[n]
              && Packets(Joined(files[..n + 1])) == Packets(Joined(files[..n])) + Packets(files[n])
    ensures n < |files| ==>
              var t := ScriptTimes(c, FileStamps(files)[..n]);
              t.Timeline? ==>
                var start := Latest(t.times, 0);
                var u := Times(c, Stamps(files[n]), start, start);
                ScriptTimes(c, FileStamps(files)[..n + 1]) == if u.Aborted? then Aborted else Timeline(t.times + u.times)
  {
    hide Times, Latest;
    assert Latest([], 0) == 0 by { NoLatest(); }
    if n < |files| {
      assert files[..n + 1][..n] == files[..n];
      assert FileStamps(files)[..n + 1][..n] == FileStamps(files)[..n];
    }
  }

  lemma NoLatest()
    ensures Latest([], 0) == 0
  {
  }

  lemma {:induction false} ScriptAborted(c: Clock, files: seq<seq<Stamp>>, n: nat)
    requires c.scale > 0 && n <= |files| && ScriptTimes(c, files[..n]).Aborted?
    ensures ScriptTimes(c, files).Aborted?
    decreases |files| - n
  {
    hide Times, Latest;
    if n == |files| {
      assert files[..n] == files;
    } else {
      assert files[..n + 1][..n] == files[..n];
      ScriptAborted(c, files, n + 1);
    }
  }

  lemma FilePacketsBelong(files: seq<seq<Parsed>>, n: nat)
    requires n < |files|
    ensures Packets(Joined(files[..n + 1])) <= Packets(Joined(files))
    ensures forall q | q in Packets(Joined(files[..n])) :: q in Packets(Joined(files))
    ensures forall q | q in Packets(files[n]) :: q in Packets(Joined(files))
    ensures |Joined(files[..n])| + |files[n]| <= |Joined(files)|
    ensures forall i | 0 <= i < |files[n]| :: Packets(files[n])[i] == Packets(Joined(files))[|Joined(files[..n])| + i]
    ensures forall i | 0 <= i < |Joined(files[..n])| :: Packets(Joined(files[..n]))[i] == Packets(Joined(files))[i]
  {
    hide Joined;
    JoinedPrefix(files, n);
    JoinedPrefix(files, n + 1);
    JoinedSnoc(files, n);
    PrefixPackets(Joined(files[..n]), Joined(files));
    PrefixPackets(Joined(files[..n + 1]), Joined(files));
    forall q | q in Packets(files[n])
      ensures q in Packets(Joined(files))
    {
      var i :| 0 <= i < |files[n]| && Packets(files[n])[i] == q;
      assert Packets(Joined(files[..n + 1]))[|Joined(files[..n])| + i] == q;
    }
  }

  lemma JoinedSnoc(files: seq<seq<Parsed>>, n: nat)
    requires n < |files|
    ensures Joined(files[..n + 1]) == Joined(files[..n]) + files[n]
  {
    assert files[..n + 1][..n] == files[..n];
  }

  lemma PrefixPackets(part: seq<Parsed>, whole: seq<Parsed>)
    requires part <= whole
    ensures Packets(part) <= Packets(whole)
    ensures forall q | q in Packets(part) :: q in Packets(whole)
  {
    forall q | q in Packets(part)
      ensures q in Packets(whole)
    {
      var i :| 0 <= i < |part| && Packets(part)[i] == q;
      assert Packets(whole)[i] == q;
    }
  }

  lemma {:induction false} JoinedPrefix(files: seq<seq<Parsed>>, n: nat)
    requires n <= |files|
    ensures Joined(files[..n]) <= Joined(files)
    decreases |files| - n
  {
    if n == |files| {
      assert files[..n] == files;
    } else {
      assert files[..n + 1][..n] == files[..n];
      JoinedPrefix(files, n + 1);
    }
  }

  lemma NoTimes(c: Clock, start: Micros, base: Micros)
    requires c.scale > 0
    ensures Times(c, [], start, base) == Timeline([])
  {
  }

  lemma LatestIs(times: seq<Micros>, now: Micros)
    ensures Latest(times + [now], 0) == now
  {
  }

  lemma NextTimeCases(c: Clock, s: Stamp, current: Micros, base: Micros)
    requires c.scale > 0
    ensures s.Default? ==> NextTime(c, s, current, base) == (current + c.Scaled(c.defaultDelay / c.scale)) % U64
    ensures s.Relative? ==> NextTime(c, s, current, base) == (current + c.Scaled(s.ticks)) % U64
    ensures s.Absolute? ==> var t := (c.Scaled(s.ticks) + base) % U64;
              NextTime(c, s, current, base) == if t < current then -1 else t
  {
    hide Clock.Scaled;
  }
}
