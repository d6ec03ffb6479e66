/** Playing the packet list out: the running send time, repetitions, and what is announced to the queued sender. */
module Output {
  import opened SendPipeline
  import opened PacketData
  import opened Schedule

  /** A list entry as it is when sending starts. */
  datatype Item = Item(delay: nat, frames: seq<Packet>)

  function Snapshot(items: seq<Linkable>): (s: seq<Item>)
    reads items
    ensures |s| == |items|
    ensures forall i | 0 <= i < |items| :: s[i] == Item(items[i].time, items[i].frames)
  {
    seq(|items|, i requires 0 <= i < |items| reads items => Item(items[i].time, items[i].frames))
  }

  /** The delays of the first n items. */
  function Sum(items: seq<Item>, n: nat): nat
    requires n <= |items|
  {
    if n == 0 then 0 else Sum(items, n - 1) + items[n - 1].delay
  }

  /** The time after k whole repetitions and i more items, without any width limit. */
  function Played(items: seq<Item>, k: nat, i: nat): nat
    requires i <= |items|
  {
    k * Sum(items, |items|) + Sum(items, i)
  }

  /** The time at which item i of repetition k is due. */
  function Elapsed(items: seq<Item>, k: nat, i: nat): nat
    requires i < |items|
  {
    Played(items, k, i + 1)
  }

  function SendTime(items: seq<Item>, k: nat, i: nat): Micros
    requires i < |items|
  {
    Elapsed(items, k, i) % 0x1_0000_0000_0000_0000
  }

  datatype Sent = Sent(time: nat, packet: Packet)

  /** All frames of one item go out at the same time. */
  function FrameLog(time: nat, frames: seq<Packet>): (log: seq<Sent>)
    ensures |log| == |frames| && forall f | 0 <= f < |frames| :: log[f] == Sent(time, frames[f])
  {
    seq(|frames|, f requires 0 <= f < |frames| => Sent(time, frames[f]))
  }

  /** The first n items of repetition k. */
  function RoundLog(items: seq<Item>, k: nat, n: nat): seq<Sent>
    requires n <= |items|
  {
    if n == 0 then [] else RoundLog(items, k, n - 1) + FrameLog(SendTime(items, k, n - 1), items[n - 1].frames)
  }

  function RunLog(items: seq<Item>, repeat: nat): seq<Sent> {
    if repeat == 0 then [] else RunLog(items, repeat - 1) + RoundLog(items, repeat - 1, |items|)
  }

  /** Sends the whole list repeat times. */
  method SendAll(data: PacketList, repeat: nat) returns (log: seq<Sent>, packetCnt: nat, totalBytes: nat)
    requires data.Valid() && repeat > 0
    ensures log == RunLog(Snapshot(data.items), repeat)
    ensures packetCnt == |AllFrames(data.items)| * repeat && totalBytes == Octets(AllFrames(data.items)) * repeat
  {
    hide AllFrames, Octets, SendTime, RunLog, RoundLog, Played, Sum;
    packetCnt, totalBytes := data.ethPackets * repeat, data.totalBytes * repeat;
    ghost var items := Snapshot(data.items);
    var sendTime, left := 0, repeat;
    ghost var k := 0;
    log := [];
    Start(items);
    while left > 0
      invariant data.Valid() && left + k == repeat
      invariant sendTime == Played(items, k, 0) % U64
      invariant log == RunLog(items, k)
      decreases left
    {
      left := left - 1;
      var sent;
      sendTime, sent := SendRound(data, sendTime, k);
      log := log + sent;
      NextRound(items, k);
      k := k + 1;
    }
  }

  /** Repetition k: runs through the list once, from the clock where the repetition before it stopped. */
  method SendRound(data: PacketList, startTime: nat, ghost k: nat) returns (sendTime: nat, log: seq<Sent>)
    requires data.Valid() && startTime == Played(Snapshot(data.items), k, 0) % U64
    ensures sendTime == Played(Snapshot(data.items), k, |data.items|) % U64
    ensures log == RoundLog(Snapshot(data.items), k, |data.items|)
  {
    hide AllFrames, Octets, SendTime, RoundLog, Played, Sum;
    ghost var items := Snapshot(data.items);
    sendTime, log := startTime, [];
    var p := data.head;
    ghost var i := 0;
    RoundStart(items, k);
    while p != null
      invariant data.Valid()
      invariant 0 <= i <= |items| && p == if i < |items| then data.items[i] else null
      invariant sendTime == Played(items, k, i) % U64
      invariant log == RoundLog(items, k, i)
      decreases |items| - i
    {
      assert p == data.items[i] && p.time == items[i].delay && p.frames == items[i].frames;
      sendTime := (sendTime + p.time) % U64;
      NextItem(items, k, i, sendTime);
      var sent := SendPacket(p, sendTime);
      log := log + sent;
      NextInList(data, i);
      p := p.next;
      i := i + 1;
    }
  }

  /** An Ethernet packet is sent as it is, of an IP packet every fragment. */
  method SendPacket(p: Linkable, sendTime: nat) returns (log: seq<Sent>)
    requires p.Proper()
    ensures log == FrameLog(sendTime, p.frames)
  {
    if !p.isIp {
      log := [Sent(sendTime, p.frames[0])];
    } else {
      log := [];
      var f := 0;
      while f < |p.frames|
        invariant 0 <= f <= |p.frames| && log == FrameLog(sendTime, p.frames[..f])
      {
        log := log + [Sent(sendTime, p.frames[f])];
        f := f + 1;
      }
      assert p.frames[..f] == p.frames;
    }
  }

  lemma NextInList(data: PacketList, i: nat)
    requires data.Valid() && i < |data.items|
    ensures data.items[i].next == if i + 1 < |data.items| then data.items[i + 1] else null
  {
  }

  lemma Start(items: seq<Item>)
    ensures RunLog(items, 0) == [] && Played(items, 0, 0) == 0
  {
  }

  lemma RoundStart(items: seq<Item>, k: nat)
    ensures RoundLog(items, k, 0) == []
  {
  }

  lemma NextItem(items: seq<Item>, k: nat, i: nat, sendTime: nat)
    requires i < |items|
    requires sendTime == (Played(items, k, i) % U64 + items[i].delay) % U64
    ensures sendTime == Played(items, k, i + 1) % U64 == SendTime(items, k, i)
    ensures RoundLog(items, k, i) + FrameLog(sendTime, items[i].frames) == RoundLog(items, k, i + 1)
  {
    hide RunLog;
    ModAdd(Played(items, k, i), items[i].delay);
  }

  lemma ModAdd(u: nat, v: nat)
    ensures (u % U64 + v) % U64 == (u + v) % U64
  {
  }

  lemma NextRound(items: seq<Item>, k: nat)
    ensures Played(items, k, |items|) == Played(items, k + 1, 0)
    ensures RunLog(items, k + 1) == RunLog(items, k) + RoundLog(items, k, |items|)
  {
    hide RoundLog;
    assert Sum(items, 0) == 0;
    NextMultiple(k, Sum(items, |items|));
  }

  lemma NextMultiple(k: nat, n: nat)
    ensures (k + 1) * n == k * n + n
  {
  }

  // ------------------------------------------------------------------------------------------
  // Send times refine the script
  // ------------------------------------------------------------------------------------------

  /** The delays up to an item add up to its time in the script. */
  lemma {:induction false} DelaysAddUp(items: seq<Item>, times: seq<Micros>, n: nat)
    requires |items| == |times| && n <= |times|
    requires forall i | 0 <= i < |items| :: items[i].delay == Difference(times, i)
    ensures Sum(items, n) % U64 == if n == 0 then 0 else times[n - 1]
  {
    if n > 0 {
      DelaysAddUp(items, times, n - 1);
      var before: int := if n == 1 then 0 else times[n - 2];
      ModAdd(Sum(items, n - 1), items[n - 1].delay);
      ModDifference(before, times[n - 1]);
    }
  }

  lemma ModDifference(u: nat, v: nat)
    requires u < U64 && v < U64
    ensures (u + (v - u) % U64) % U64 == v
  {
  }

  /** In repetition k instruction i is sent at k times the duration of the script plus the instruction's own
      time, in 64-bit arithmetic. */
  lemma SentAtScriptTime(items: seq<Item>, times: seq<Micros>, k: nat, i: nat)
    requires |items| == |times| && i < |times|
    requires forall i | 0 <= i < |items| :: items[i].delay == Difference(times, i)
    ensures SendTime(items, k, i) == (k * Latest(times, 0) + times[i]) % U64
  {
    hide Sum, Difference;
    var total, n := Sum(items, |items|), |items|;
    DelaysAddUp(items, times, n);
    DelaysAddUp(items, times, i + 1);
    ModMul(k, total);
    ModAdd(k * total, Sum(items, i + 1));
    ModAdd(Sum(items, i + 1), k * total % U64);
    ModAdd(k * Latest(times, 0), times[i]);
  }

  lemma {:induction false} ModMul(k: nat, n: nat)
    ensures k * n % U64 == k * (n % U64) % U64
  {
    if k > 0 {
      ModMul(k - 1, n);
      assert k * n == (k - 1) * n + n && k * (n % U64) == (k - 1) * (n % U64) + n % U64;
      ModAdd((k - 1) * n, n);
      ModAdd(n, (k - 1) * n % U64);
      ModAdd((k - 1) * (n % U64), n % U64);
    }
  }

  /** Repetition k of a script, up to instruction n: every frame of an instruction at its scripted time. */
  function ScriptRound(frames: seq<seq<Packet>>, times: seq<Micros>, k: nat, n: nat): seq<Sent>
    requires n <= |frames| == |times|
  {
    if n == 0 then []
    else ScriptRound(frames, times, k, n - 1) + FrameLog((k * Latest(times, 0) + times[n - 1]) % U64, frames[n - 1])
  }

  function ScriptLog(frames: seq<seq<Packet>>, times: seq<Micros>, repeat: nat): seq<Sent>
    requires |frames| == |times|
  {
    if repeat == 0 then []
    else ScriptLog(frames, times, repeat - 1) + ScriptRound(frames, times, repeat - 1, |frames|)
  }

  /** The items carry the delays between the scripted times. */
  ghost predicate Scripted(items: seq<Item>, frames: seq<seq<Packet>>, times: seq<Micros>) {
    && |items| == |frames| == |times|
    && forall i | 0 <= i < |items| :: items[i] == Item(Difference(times, i), frames[i])
  }

  lemma {:induction false} RoundFollowsScript(items: seq<Item>, frames: seq<seq<Packet>>, times: seq<Micros>, k: nat, n: nat)
    requires Scripted(items, frames, times) && n <= |items|
    ensures RoundLog(items, k, n) == ScriptRound(frames, times, k, n)
  {
    hide SendTime, Difference, Latest;
    if n > 0 {
      RoundFollowsScript(items, frames, times, k, n - 1);
      SentAtScriptTime(items, times, k, n - 1);
    }
  }

  lemma {:induction false} RunFollowsScript(items: seq<Item>, frames: seq<seq<Packet>>, times: seq<Micros>, repeat: nat)
    requires Scripted(items, frames, times)
    ensures RunLog(items, repeat) == ScriptLog(frames, times, repeat)
  {
    hide RoundLog, ScriptRound, Scripted;
    ScriptedLengths(items, frames, times);
    if repeat > 0 {
      RunFollowsScript(items, frames, times, repeat - 1);
      RoundFollowsScript(items, frames, times, repeat - 1, |items|);
    }
  }

  lemma ScriptedLengths(items: seq<Item>, frames: seq<seq<Packet>>, times: seq<Micros>)
    requires Scripted(items, frames, times)
    ensures |items| == |frames| == |times|
  {
  }

  function FramesOf(packets: seq<Linkable>): (f: seq<seq<Packet>>)
    ensures |f| == |packets| && forall i | 0 <= i < |packets| :: f[i] == packets[i].frames
  {
    seq(|packets|, i requires 0 <= i < |packets| => packets[i].frames)
  }

  /** From script files to frames on the wire: every frame is sent at its instruction's scripted time, counted
      from the start of the repetition, and the queued sender is told exactly how much will come. */
  method PlayScripts(c: Compiler, files: seq<seq<Parsed>>, repeat: nat)
    returns (ok: bool, log: seq<Sent>, packetCnt: nat, totalBytes: nat)
    requires c.clock.scale > 0 && c.data.Valid() && c.data.items == [] && repeat > 0
    requires Distinct(Packets(Joined(files)))
    modifies c`hasUserTimestamps, c.data, Packets(Joined(files))
    ensures var t := ScriptTimes(c.clock, FileStamps(files));
            && (ok <==> t.Timeline?)
            && (ok ==> |t.times| == |Packets(Joined(files))|
                       && log == ScriptLog(FramesOf(Packets(Joined(files))), t.times, repeat))
            && (ok ==> ScriptFollows(c.clock, files, t.times))
    ensures !ok ==> forall times :: !ScriptFollows(c.clock, files, times)
    ensures ok ==> forall q :: Job(Handed(log), packetCnt, totalBytes, q).Honest()
  {
    hide ScriptTimes, ScriptFollows, PacketList.Valid, RunLog, ScriptLog, AllFrames, Octets, Difference, Job.Honest, Joined;
    log, packetCnt, totalBytes := [], 0, 0;
    ok := c.ProcessScriptFiles(files);
    if ok {
      ghost var times := ScriptTimes(c.clock, FileStamps(files)).times;
      ghost var packets := Packets(Joined(files));
      log, packetCnt, totalBytes := SendAll(c.data, repeat);
      assert Scripted(Snapshot(packets), FramesOf(packets), times);
      RunFollowsScript(Snapshot(packets), FramesOf(packets), times, repeat);
      forall q
        ensures Job(Handed(log), packetCnt, totalBytes, q).Honest()
      {
        AnnouncementIsHonest(packets, repeat, packetCnt, totalBytes, q);
      }
    }
  }

  // ------------------------------------------------------------------------------------------
  // When send times never decrease
  // ------------------------------------------------------------------------------------------

  /** (k, i) comes before (m, j) in a run. */
  predicate Earlier(k: nat, i: nat, m: nat, j: nat) {
    k < m || (k == m && i <= j)
  }

  ghost predicate NeverDecreases(items: seq<Item>, repeat: nat) {
    forall k: nat, i, m: nat, j | 0 <= i < |items| && 0 <= j < |items| && m < repeat && Earlier(k, i, m, j) ::
      SendTime(items, k, i) <= SendTime(items, m, j)
  }

  lemma {:induction false} SumGrows(items: seq<Item>, i: nat, j: nat)
    requires i <= j <= |items|
    ensures Sum(items, i) <= Sum(items, j)
  {
    if i < j {
      SumGrows(items, i, j - 1);
    }
  }

  lemma ElapsedGrows(items: seq<Item>, k: nat, i: nat, m: nat, j: nat)
    requires i < |items| && j < |items| && Earlier(k, i, m, j)
    ensures Elapsed(items, k, i) <= Elapsed(items, m, j) <= (m + 1) * Sum(items, |items|)
  {
    hide Sum;
    var total := Sum(items, |items|);
    SumGrows(items, i + 1, |items|);
    SumGrows(items, j + 1, |items|);
    NextMultiple(m, total);
    if k < m {
      NextMultiple(k, total);
      Multiples(k + 1, m, total);
    } else {
      SumGrows(items, i + 1, j + 1);
    }
  }

  lemma Multiples(k: nat, m: nat, n: nat)
    requires k <= m
    ensures k * n <= m * n
  {
  }

  /** Going back from a time beyond 64 bits one finds the packet at which the clock wraps. */
  lemma {:induction false} WrapFound(items: seq<Item>, k: nat, i: nat) returns (m: nat, j: nat)
    requires i < |items| && Elapsed(items, k, i) >= U64
    requires forall i | 0 <= i < |items| :: items[i].delay < U64
    ensures j < |items| && Earlier(m, j, k, i) && Elapsed(items, m, j) >= U64
    ensures (j > 0 && Elapsed(items, m, j - 1) < U64) || (j == 0 && m > 0 && Elapsed(items, m - 1, |items| - 1) < U64)
    decreases k, i
  {
    hide Sum;
    if i > 0 {
      if Elapsed(items, k, i - 1) < U64 { m, j := k, i; } else { m, j := WrapFound(items, k, i - 1); }
    } else if k > 0 {
      if Elapsed(items, k - 1, |items| - 1) < U64 { m, j := k, i; } else { m, j := WrapFound(items, k - 1, |items| - 1); }
    } else {
      FirstDelay(items);
      assert false;
    }
  }

  lemma FirstDelay(items: seq<Item>)
    requires items != []
    ensures Elapsed(items, 0, 0) == items[0].delay
  {
    assert Sum(items, 1) == Sum(items, 0) + items[0].delay;
  }

  /** From one item to the next the clock moves by the item's delay. */
  lemma ElapsedStep(items: seq<Item>, k: nat, i: nat)
    requires i < |items|
    ensures i > 0 ==> Elapsed(items, k, i) == Elapsed(items, k, i - 1) + items[i].delay
    ensures i == 0 && k > 0 ==> Elapsed(items, k, i) == Elapsed(items, k - 1, |items| - 1) + items[i].delay
  {
    if i == 0 && k > 0 {
      NextMultiple(k - 1, Sum(items, |items|));
      FirstDelay(items);
    }
  }

  /** Send times never decrease exactly when the whole run ends within 64 bits of microseconds. */
  lemma NeverDecreasesExactlyWhen(items: seq<Item>, repeat: nat)
    requires items != [] && repeat > 0 && forall i | 0 <= i < |items| :: items[i].delay < U64
    ensures NeverDecreases(items, repeat) <==> repeat * Sum(items, |items|) < U64
  {
    hide Sum, Elapsed;
    var n := |items|;
    LastElapsed(items, repeat);
    if repeat * Sum(items, n) < U64 {
      forall k: nat, i, m: nat, j | 0 <= i < n && 0 <= j < n && m < repeat && Earlier(k, i, m, j)
        ensures SendTime(items, k, i) <= SendTime(items, m, j)
      {
        ElapsedGrows(items, k, i, m, j);
        Multiples(m + 1, repeat, Sum(items, n));
      }
    } else {
      var m, j := WrapFound(items, repeat - 1, n - 1);
      ElapsedStep(items, m, j);
      if j > 0 {
        assert SendTime(items, m, j - 1) > SendTime(items, m, j) && Earlier(m, j - 1, m, j);
      } else {
        assert SendTime(items, m - 1, n - 1) > SendTime(items, m, 0) && Earlier(m - 1, n - 1, m, 0);
      }
    }
  }

  lemma LastElapsed(items: seq<Item>, repeat: nat)
    requires items != [] && repeat > 0
    ensures Elapsed(items, repeat - 1, |items| - 1) == repeat * Sum(items, |items|)
  {
    hide Sum;
    NextMultiple(repeat - 1, Sum(items, |items|));
  }

  // ------------------------------------------------------------------------------------------
  // What the queued sender is told
  // ------------------------------------------------------------------------------------------

  function Handed(log: seq<Sent>): (q: seq<Packet>)
    ensures |q| == |log| && forall i | 0 <= i < |log| :: q[i] == log[i].packet
  {
    seq(|log|, i requires 0 <= i < |log| => log[i].packet)
  }

  function Frames(items: seq<Item>, n: nat): seq<Packet>
    requires n <= |items|
  {
    if n == 0 then [] else Frames(items, n - 1) + items[n - 1].frames
  }

  lemma {:induction false} RoundHandsFrames(items: seq<Item>, k: nat, n: nat)
    requires n <= |items|
    ensures Handed(RoundLog(items, k, n)) == Frames(items, n)
  {
    hide SendTime;
    if n > 0 {
      RoundHandsFrames(items, k, n - 1);
      var before, last := RoundLog(items, k, n - 1), FrameLog(SendTime(items, k, n - 1), items[n - 1].frames);
      assert Handed(before + last) == Handed(before) + Handed(last);
      assert Handed(last) == items[n - 1].frames;
    }
  }

  lemma HandedConcat(a: seq<Sent>, b: seq<Sent>)
    ensures Handed(a + b) == Handed(a) + Handed(b)
    ensures Octets(Handed(a + b)) == Octets(Handed(a)) + Octets(Handed(b))
  {
    hide Octets;
    assert Handed(a + b) == Handed(a) + Handed(b);
    OctetsConcat(Handed(a), Handed(b));
  }

  lemma {:induction false} RunHandsFrames(items: seq<Item>, repeat: nat)
    ensures |RunLog(items, repeat)| == repeat * |Frames(items, |items|)|
    ensures Octets(Handed(RunLog(items, repeat))) == repeat * Octets(Frames(items, |items|))
  {
    hide RoundLog, Octets, Frames, Handed;
    var q := Frames(items, |items|);
    if repeat > 0 {
      RunHandsFrames(items, repeat - 1);
      RoundHandsFrames(items, repeat - 1, |items|);
      HandedConcat(RunLog(items, repeat - 1), RoundLog(items, repeat - 1, |items|));
      NextMultiple(repeat - 1, |q|);
      NextMultiple(repeat - 1, Octets(q));
    } else {
      NothingHanded();
    }
  }

  lemma NothingHanded()
    ensures Octets(Handed([])) == 0
  {
  }

  lemma {:induction false} SnapshotFrames(items: seq<Linkable>, n: nat)
    requires n <= |items|
    ensures Frames(Snapshot(items), n) == AllFrames(items[..n])
  {
    if n > 0 {
      SnapshotFrames(items, n - 1);
      assert items[..n][..n - 1] == items[..n - 1];
    }
  }

  /** The announcement is exact: it counts every fragment of every repetition, so the single queue is
      allocated for all of them. */
  lemma AnnouncementIsHonest(items: seq<Linkable>, repeat: nat, packetCnt: nat, totalBytes: nat, maxQueueSize: nat)
    requires packetCnt == |AllFrames(items)| * repeat && totalBytes == Octets(AllFrames(items)) * repeat
    ensures Job(Handed(RunLog(Snapshot(items), repeat)), packetCnt, totalBytes, maxQueueSize).Honest()
  {
    hide RunLog, Octets, AllFrames, Frames, QueuedBytes, Snapshot;
    var log := RunLog(Snapshot(items), repeat);
    RunHandsFrames(Snapshot(items), repeat);
    SnapshotFrames(items, |items|);
    assert items[..|items|] == items;
    QueuedIsHeadersAndOctets(Handed(log));
    Commute(repeat, |AllFrames(items)|);
    Commute(repeat, Octets(AllFrames(items)));
  }

  lemma Commute(a: nat, b: nat)
    ensures a * b == b * a
  {
  }
}
