/**
 MySQL replication: the one summary level shown for an instance, and the three alert
 levels counted for the overview, which the code computes by separate loops.
 */
module Replication {
  import opened Optional

  datatype Level = Normal | Unknown | Warning | Critical

  datatype State = StateNormal | NotConfigured | ThreadsStopped | StateUnknown

  datatype Role = Writable | OtherRole

  /** A floating-point reading; the two infinities and not-a-number are one case. */
  datatype Float = Number(value: real) | NotFinite

  datatype Channel = Channel(ioRunning: Option<bool>, sqlRunning: Option<bool>, lag: Option<Float>)

  datatype Summary = Summary(state: State, lag: Option<real>, level: Level)

  function Rank(level: Level): nat {
    match level
    case Normal => 0
    case Unknown => 1
    case Warning => 2
    case Critical => 3
  }

  function Higher(left: Level, right: Level): Level {
    if Rank(right) > Rank(left) then right else left
  }

  predicate ValidLag(lag: Option<Float>) {
    lag.Some? && lag.value.Number? && lag.value.value >= 0.0
  }

  predicate Stopped(channel: Channel) {
    channel.ioRunning == Some(false) || channel.sqlRunning == Some(false)
  }

  predicate ThreadUnreported(channel: Channel) {
    channel.ioRunning.None? || channel.sqlRunning.None?
  }

  predicate Incomplete(channel: Channel) {
    ThreadUnreported(channel) || !ValidLag(channel.lag)
  }

  /** The largest valid lag of the channels, if any is valid. */
  ghost predicate IsLargestLag(channels: seq<Channel>, largest: Option<real>) {
    match largest
    case None => forall c <- channels :: c.lag.None? || c.lag == Some(NotFinite) || c.lag.value.value < 0.0
    case Some(most) =>
      && most >= 0.0 && (exists c <- channels :: c.lag == Some(Number(most)))
      && (forall c <- channels :: c.lag.Some? && c.lag.value.Number? ==> c.lag.value.value <= most)
  }

  lemma LargestLagIsUnique(channels: seq<Channel>, a: Option<real>, b: Option<real>)
    requires IsLargestLag(channels, a) && IsLargestLag(channels, b)
    ensures a == b
  {
  }

  function LagBand(lag: real): Level {
    if lag >= 30.0 then Critical else if lag >= 5.0 then Warning else Normal
  }

  /** A channel is stopped by one thread, incomplete by one missing report, and in order only with all three. */
  lemma ChannelStates(c: Channel)
    ensures Stopped(c) <==> Some(false) in {c.ioRunning, c.sqlRunning}
    ensures ThreadUnreported(c) <==> None in {c.ioRunning, c.sqlRunning}
    ensures !Stopped(c) && !Incomplete(c) <==>
            && c.ioRunning.Some? && c.ioRunning.value && c.sqlRunning.Some? && c.sqlRunning.value
            && c.lag.Some? && c.lag.value.Number? && c.lag.value.value >= 0.0
  {
  }

  lemma Growing(channels: seq<Channel>, i: nat)
    requires i < |channels|
    ensures forall c :: c in channels[..i + 1] <==> c in channels[..i] || c == channels[i]
  {
  }

  // ---------------------------------------------------------------------------
  // The three alert levels

  /** Critical when a thread is stopped, otherwise unknown when one is unreported. */
  method ThreadsLevel(role: Role, channels: seq<Channel>) returns (level: Level)
    ensures level == Critical <==> exists c <- channels :: Stopped(c)
    ensures level == Unknown <==>
              if channels == [] then role != Writable
              else (forall c <- channels :: !Stopped(c)) && exists c <- channels :: ThreadUnreported(c)
    ensures level != Warning
  {
    if |channels| == 0 {
      if role == Writable {
        return Normal;
      }
      return Unknown;
    }
    level := Normal;
    for i := 0 to |channels|
      invariant level == Normal || level == Unknown
      invariant forall c <- channels[..i] :: !Stopped(c)
      invariant level == Unknown <==> exists c <- channels[..i] :: ThreadUnreported(c)
    {
      var channel := channels[i];
      Growing(channels, i);
      if Stopped(channel) {
        assert Stopped(channels[i]);
        return Critical;
      }
      if ThreadUnreported(channel) {
        level := Unknown;
      }
    }
    assert channels[..|channels|] == channels;
  }

  method LagLevel(channels: seq<Channel>) returns (level: Level, available: bool)
    ensures forall largest :: IsLargestLag(channels, largest) ==>
              && available == largest.Some?
              && (level == Critical <==> largest.Some? && largest.value >= 30.0)
              && (level == Warning <==> largest.Some? && 5.0 <= largest.value < 30.0)
    ensures level != Unknown
  {
    var maximum := 0.0;
    available := false;
    for i := 0 to |channels|
      invariant IsLargestLag(channels[..i], if available then Some(maximum) else None)
    {
      var channel := channels[i];
      Growing(channels, i);
      if ValidLag(channel.lag) && (!available || channel.lag.value.value > maximum) {
        maximum := channel.lag.value.value;
        available := true;
      }
    }
    assert channels[..|channels|] == channels;
    ghost var found := if available then Some(maximum) else None;
    forall largest | IsLargestLag(channels, largest) ensures largest == found {
      LargestLagIsUnique(channels, largest, found);
    }
    if !available {
      return Normal, false;
    }
    level := LagBand(maximum);
  }

  method DataLevel(role: Role, channels: seq<Channel>) returns (level: Level)
    ensures level == Unknown <==>
              if channels == [] then role != Writable else exists c <- channels :: Incomplete(c)
    ensures level == Unknown || level == Normal
  {
    if |channels| == 0 {
      if role == Writable {
        return Normal;
      }
      return Unknown;
    }
    for i := 0 to |channels|
      invariant forall c <- channels[..i] :: !Incomplete(c)
    {
      var channel := channels[i];
      Growing(channels, i);
      if ThreadUnreported(channel) || !ValidLag(channel.lag) {
        assert Incomplete(channels[i]);
        return Unknown;
      }
    }
    assert channels[..|channels|] == channels;
    level := Normal;
  }

  // ---------------------------------------------------------------------------
  // The summary

  /** The level that the three alerts jointly call for, with a missing lag counted as normal. */
  ghost function JointLevel(role: Role, channels: seq<Channel>, largest: Option<real>): Level {
    var threads :=
      if channels == [] then (if role == Writable then Normal else Unknown)
      else if exists c <- channels :: Stopped(c) then Critical
      else if exists c <- channels :: ThreadUnreported(c) then Unknown
      else Normal;
    var lag := if largest.Some? then LagBand(largest.value) else Normal;
    var data :=
      if channels == [] then (if role == Writable then Normal else Unknown)
      else if exists c <- channels :: Incomplete(c) then Unknown
      else Normal;
    Higher(Higher(threads, lag), data)
  }

  /** One pass over the channels agrees with the three separate alerts, and keeps the largest valid lag. */
  method Summarize(role: Role, channels: seq<Channel>) returns (summary: Summary)
    ensures IsLargestLag(channels, summary.lag)
    ensures summary.level == JointLevel(role, channels, summary.lag)
    ensures summary.level == Critical <==>
              (exists c <- channels :: Stopped(c)) || (summary.lag.Some? && summary.lag.value >= 30.0)
    ensures summary.level == Warning <==>
              (forall c <- channels :: !Stopped(c)) && summary.lag.Some? && 5.0 <= summary.lag.value < 30.0
    ensures summary.level == Unknown <==>
              if channels == [] then role != Writable
              else && (forall c <- channels :: !Stopped(c)) && (exists c <- channels :: Incomplete(c))
                   && (summary.lag.Some? ==> summary.lag.value < 5.0)
    ensures summary.state ==
            if channels == [] then (if role == Writable then NotConfigured else StateUnknown)
            else if exists c <- channels :: Stopped(c) then ThreadsStopped
            else if exists c <- channels :: Incomplete(c) then StateUnknown
            else StateNormal
  {
    if |channels| == 0 {
      if role == Writable {
        return Summary(NotConfigured, None, Normal);
      }
      return Summary(StateUnknown, None, Unknown);
    }
    var maximumLag: Option<real> := None;
    var incomplete := false;
    var threadStopped := false;
    for i := 0 to |channels|
      invariant threadStopped <==> exists c <- channels[..i] :: Stopped(c)
      invariant incomplete <==> exists c <- channels[..i] :: Incomplete(c)
      invariant IsLargestLag(channels[..i], maximumLag)
    {
      var channel := channels[i];
      Growing(channels, i);
      if Stopped(channel) {
        threadStopped := true;
      }
      var validLag := ValidLag(channel.lag);
      assert Incomplete(channel) <==> ThreadUnreported(channel) || !validLag;
      if ThreadUnreported(channel) || !validLag {
        incomplete := true;
      }
      if validLag && (maximumLag.None? || channel.lag.value.value > maximumLag.value) {
        maximumLag := Some(channel.lag.value.value);
      }
    }
    assert channels[..|channels|] == channels;
    if threadStopped {
      return Summary(ThreadsStopped, maximumLag, Critical);
    }
    if maximumLag.None? {
      assert Incomplete(channels[0]);
      return Summary(StateUnknown, None, Unknown);
    }
    var level := Normal;
    if maximumLag.value >= 30.0 {
      level := Critical;
    } else if maximumLag.value >= 5.0 {
      level := Warning;
    }
    if incomplete {
      return Summary(StateUnknown, maximumLag, Higher(Unknown, level));
    }
    assert forall c <- channels :: ThreadUnreported(c) ==> Incomplete(c);
    summary := Summary(StateNormal, maximumLag, level);
  }

  /** The four loops of the program, run on one instance: the summary is the worst of the alerts. */
  method SummaryMatchesAlerts(role: Role, channels: seq<Channel>)
      returns (summary: Summary, threads: Level, lag: Level, lagKnown: bool, data: Level)
    ensures Rank(threads) <= Rank(summary.level) && Rank(lag) <= Rank(summary.level) &&
        Rank(data) <= Rank(summary.level)
    ensures summary.level in {threads, lag, data}
    ensures lagKnown == summary.lag.Some?
    ensures lagKnown ==>
              (lag == Critical <==> summary.lag.value >= 30.0) && (lag == Warning <==> 5.0 <= summary.lag.value < 30.0)
  {
    summary := Summarize(role, channels);
    threads := ThreadsLevel(role, channels);
    lag, lagKnown := LagLevel(channels);
    data := DataLevel(role, channels);
  }

  /** The order of the channels does not matter. */
  lemma ChannelOrderIsIrrelevant(role: Role, a: seq<Channel>, b: seq<Channel>, largest: Option<real>)
    requires multiset(a) == multiset(b)
    ensures IsLargestLag(a, largest) <==> IsLargestLag(b, largest)
    ensures JointLevel(role, a, largest) == JointLevel(role, b, largest)
  {
    assert forall c :: c in a <==> c in multiset(a);
    assert forall c :: c in b <==> c in multiset(b);
    assert |a| == |multiset(a)| && |b| == |multiset(b)|;
  }
}
