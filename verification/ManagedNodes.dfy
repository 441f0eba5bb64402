/** A network node: its address, its use counters and its backoff. Time is a number of
    nanoseconds that never runs backwards. */
module ManagedNodes {
  import opened Wrappers
  import opened EntityIds

  /** The wall clock: each reading may find that any amount of time has passed. */
  class Clock {
    var now: int

    constructor (start: int)
      ensures now == start
    {
      now := start;
    }

    method Now() returns (t: int)
      modifies this
      ensures old(now) <= now && t == now
    {
      t :| now <= t;
      now := t;
    }

    /** Lets time pass, at least until a given moment. */
    method WaitUntil(t: int)
      modifies this
      ensures old(now) <= now && t <= now
    {
      if now < t {
        now := t;
      }
    }
  }

  datatype NodeAddress = NodeAddress(host: string, port: nat)
  {
    function ToSecure(): NodeAddress {
      if port == 50211 then this.(port := 50212)
      else if port == 5600 then this.(port := 443)
      else this
    }

    function ToInsecure(): NodeAddress {
      if port == 50212 then this.(port := 50211)
      else if port == 443 then this.(port := 5600)
      else this
    }
  }

  /** Nodes listen on 50211 and 50212, mirrors on 5600 and 443; any other port is kept. Switching
      over and back restores the address but of one already on the far side. */
  lemma PortsSwitched(host: string, port: nat)
    ensures NodeAddress(host, 50211).ToSecure() == NodeAddress(host, 50212)
    ensures NodeAddress(host, 5600).ToSecure() == NodeAddress(host, 443)
    ensures var a := NodeAddress(host, port);
            && (a.ToSecure() == a <==> port !in {50211, 5600}) && (a.ToInsecure() == a <==> port !in {50212, 443})
            && (a.ToSecure().ToInsecure() == a <==> port !in {50212, 443})
            && (a.ToInsecure().ToSecure() == a <==> port !in {50211, 5600})
  {
    assert NodeAddress(host, 50211).ToSecure().ToInsecure() == NodeAddress(host, 50211);
  }

  predicate IsSpace(c: char)
  {
    c == ' ' || c == '\t' || c == '\n' || c == '\r' || c as int == 12
  }

  /** The blanks of a regular expression: tab, line feed, form feed, carriage return and space. */
  lemma SpacesSpelt(c: char)
    ensures IsSpace(c) <==> c as int in {9, 10, 12, 13, 32}
  {
    assert '\t' as int == 9 && '\n' as int == 10 && '\r' as int == 13 && ' ' as int == 32;
  }

  /** Position just behind the last colon, or zero. */
  function AfterColon(s: string): (i: nat)
    ensures i <= |s| && (i > 0 ==> s[i - 1] == ':')
  {
    if s == "" then 0
    else if s[|s| - 1] == ':' then |s|
    else AfterColon(s[..|s| - 1])
  }

  /** `host:port` without blanks; the port is read as 64 bits and cut to 32. */
  function ParseAddress(s: string): (r: Option<NodeAddress>)
    ensures r.Some? ==> ':' in s
    ensures r.Some? ==>
              var n := |r.value.host|;
              && 0 < n < |s| - 1 && s[..n] == r.value.host && s[n] == ':'
              && AllDigits(s[n + 1..]) && r.value.port == DecimalValue(s[n + 1..]) % TWO_32
  {
    var i := AfterColon(s);
    if i < 2 || i == |s| || !AllDigits(s[i..]) || (exists k :: 0 <= k < i - 1 && IsSpace(s[k])) then None
    else if DecimalValue(s[i..]) >= TWO_64 then None
    else Some(NodeAddress(s[..i - 1], DecimalValue(s[i..]) % TWO_32))
  }

  lemma {:induction false} LastColon(host: string, digits: string)
    requires AllDigits(digits)
    ensures AfterColon(host + ":" + digits) == |host| + 1
    decreases |digits|
  {
    var s := host + ":" + digits;
    if digits == "" {
      assert s[|s| - 1] == ':';
    } else {
      var n := |digits| - 1;
      assert s[..|s| - 1] == host + ":" + digits[..n];
      assert s[|s| - 1] == digits[n] != ':';
      LastColon(host, digits[..n]);
    }
  }

  /** What parses is exactly a host without blanks, a colon, and digits whose number fits 64 bits and
      is cut to 32. */
  lemma ParsesExactly(s: string, address: NodeAddress)
    ensures ParseAddress(s) == Some(address) <==>
            exists digits :: Names(s, address, digits)
  {
    hide ParseAddress, Names;
    if ParseAddress(s) == Some(address) {
      var digits := NamedBy(s, address);
    }
    forall digits | Names(s, address, digits) ensures ParseAddress(s) == Some(address) {
      NamedParses(s, address, digits);
    }
  }

  lemma NamedBy(s: string, address: NodeAddress) returns (digits: string)
    requires ParseAddress(s) == Some(address)
    ensures Names(s, address, digits)
  {
    hide DecimalValue, AllDigits, IsSpace, AfterColon;
    digits := s[AfterColon(s)..];
  }

  lemma NamedParses(s: string, address: NodeAddress, digits: string)
    requires Names(s, address, digits)
    ensures ParseAddress(s) == Some(address)
  {
    hide DecimalValue, AllDigits, IsSpace, AfterColon;
    LastColon(address.host, digits);
    assert s[|address.host| + 1..] == digits && s[..|address.host|] == address.host;
    assert forall k :: 0 <= k < |address.host| ==> s[k] == address.host[k];
  }

  predicate Names(s: string, address: NodeAddress, digits: string)
  {
    && s == address.host + ":" + digits && address.host != "" && digits != "" && AllDigits(digits)
    && (forall k :: 0 <= k < |address.host| ==> !IsSpace(address.host[k]))
    && DecimalValue(digits) < TWO_64 && address.port == DecimalValue(digits) % TWO_32
  }

  /** A printed address parses back to itself, whatever colons its host holds, exactly when the
      host is not empty and free of blanks; a port beyond 32 bits would lose its upper part. */
  lemma AddressRoundTrip(address: NodeAddress)
    requires address.port < TWO_64
    ensures ParseAddress(address.host + ":" + Decimal(address.port)) == Some(address)
       <==> && address.host != "" && (forall k :: 0 <= k < |address.host| ==> !IsSpace(address.host[k]))
            && address.port < TWO_32
  {
    hide Decimal, AfterColon, DecimalValue;
    var digits := Decimal(address.port);
    var s := address.host + ":" + digits;
    LastColon(address.host, digits);
    DecimalRoundTrip(address.port);
    assert s[|address.host| + 1..] == digits && s[..|address.host|] == address.host;
    assert forall k :: 0 <= k < |address.host| ==> s[k] == address.host[k];
  }

  const HOUR: int := 3_600_000_000_000

  /** Two's complement wrap-around of a 64-bit duration. */
  function Wrap64(n: int): (r: int)
    ensures -TWO_63 <= r < TWO_63
    ensures -TWO_63 <= n < TWO_63 ==> r == n
  {
    (n + TWO_63) % TWO_64 - TWO_63
  }

  /** Wrapping around changes a number by a multiple of 2^64; with its range that makes it the one. */
  lemma WrapsWhole(n: int)
    ensures exists k :: Wrap64(n) == n + k * TWO_64
  {
    assert Wrap64(n) == n + -((n + TWO_63) / TWO_64) * TWO_64;
  }

  /** Go's division truncates toward zero. */
  function Half(n: int): int
  {
    if n >= 0 then n / 2 else -(-n / 2)
  }

  lemma HalfTruncates(n: int)
    ensures n >= 0 ==> 2 * Half(n) <= n < 2 * Half(n) + 2
    ensures Half(-n) == -Half(n)
  {
  }

  function Doubled(backoff: int, max: int): int
  {
    var next := Wrap64(backoff * 2);
    if next > max then max else next
  }

  function Halved(backoff: int, min: int): int
  {
    if Half(backoff) < min then min else Half(backoff)
  }

  class Node {
    const key: string
    const address: NodeAddress
    var currentBackoff: int
    var minBackoff: int
    var maxBackoff: int
    var lastUsed: int
    var useCount: int
    var badGrpcStatusCount: int
    var readmitTime: Option<int>
    var channelOpen: bool
    var verifyCertificate: bool

    constructor (key: string, address: NodeAddress, minBackoff: int, now: int)
      ensures this.key == key && this.address == address
      ensures this.minBackoff == minBackoff && currentBackoff == minBackoff && maxBackoff == HOUR
      ensures lastUsed == now && useCount == 0 && badGrpcStatusCount == 0
      ensures readmitTime == None && !channelOpen && verifyCertificate
    {
      this.key := key;
      this.address := address;
      this.minBackoff := minBackoff;
      currentBackoff := minBackoff;
      maxBackoff := HOUR;
      lastUsed := now;
      useCount := 0;
      badGrpcStatusCount := 0;
      readmitTime := None;
      channelOpen := false;
      verifyCertificate := true;
    }

    /** The copy a change of transport security makes. It shares the backoff history but not the
        maximum, which is left at zero. */
    constructor Copy(from: Node, secure: bool)
      ensures key == from.key && address == if secure then from.address.ToSecure() else from.address.ToInsecure()
      ensures currentBackoff == from.currentBackoff && minBackoff == from.minBackoff && maxBackoff == 0
      ensures lastUsed == from.lastUsed && useCount == from.useCount && badGrpcStatusCount == from.badGrpcStatusCount
      ensures readmitTime == from.readmitTime && channelOpen == from.channelOpen
      ensures verifyCertificate == from.verifyCertificate
    {
      key := from.key;
      address := if secure then from.address.ToSecure() else from.address.ToInsecure();
      currentBackoff := from.currentBackoff;
      minBackoff := from.minBackoff;
      maxBackoff := 0;
      lastUsed := from.lastUsed;
      useCount := from.useCount;
      badGrpcStatusCount := from.badGrpcStatusCount;
      readmitTime := from.readmitTime;
      channelOpen := from.channelOpen;
      verifyCertificate := from.verifyCertificate;
    }

    /** Healthy unless failed and not yet due for readmission. */
    predicate HealthyAt(now: int)
      reads this
    {
      readmitTime.None? || readmitTime.value < now
    }

    /** `minBackoff`..`maxBackoff`, small enough to double. */
    predicate BackoffInRange()
      reads this
    {
      0 < minBackoff <= currentBackoff <= maxBackoff < TWO_63 / 2
    }

    method IsHealthy(clock: Clock) returns (healthy: bool)
      modifies clock
      ensures old(clock.now) <= clock.now
      ensures healthy == HealthyAt(clock.now)
    {
      if readmitTime.None? {
        return true;
      }
      var t := clock.Now();
      healthy := readmitTime.value < t;
    }

    method InUse(clock: Clock)
      modifies this`useCount, this`lastUsed, clock
      ensures old(clock.now) <= clock.now
      ensures useCount == old(useCount) + 1 && lastUsed == clock.now
    {
      useCount := useCount + 1;
      var t := clock.Now();
      lastUsed := t;
    }

    method IncreaseBackoff(clock: Clock)
      modifies this`badGrpcStatusCount, this`currentBackoff, this`readmitTime, clock
      ensures old(clock.now) <= clock.now
      ensures badGrpcStatusCount == old(badGrpcStatusCount) + 1
      ensures currentBackoff == Doubled(old(currentBackoff), maxBackoff)
      ensures readmitTime == Some(clock.now + currentBackoff)
      ensures old(BackoffInRange()) ==> BackoffInRange() && !HealthyAt(clock.now)
      // The failure keeps the node out for its minimum backoff exactly when its maximum allows that.
      ensures 0 < minBackoff <= old(currentBackoff) < TWO_63 / 2 ==>
                ((forall t :: t <= clock.now + minBackoff ==> !HealthyAt(t)) <==> minBackoff <= maxBackoff)
    {
      badGrpcStatusCount := badGrpcStatusCount + 1;
      currentBackoff := Wrap64(currentBackoff * 2);
      if currentBackoff > maxBackoff {
        currentBackoff := maxBackoff;
      }
      var t := clock.Now();
      readmitTime := Some(t + currentBackoff);
      if 0 < minBackoff <= old(currentBackoff) < TWO_63 / 2 && maxBackoff < minBackoff {
        assert HealthyAt(clock.now + minBackoff);
      }
    }

    method DecreaseBackoff()
      modifies this`currentBackoff
      ensures currentBackoff == Halved(old(currentBackoff), minBackoff)
      ensures old(BackoffInRange()) ==> BackoffInRange()
    {
      currentBackoff := Half(currentBackoff);
      if currentBackoff < minBackoff {
        currentBackoff := minBackoff;
      }
    }

    /** Closing drops the channel whether or not the close succeeds. */
    method Close() returns (ok: bool)
      modifies this`channelOpen
      ensures !channelOpen && (!old(channelOpen) ==> ok)
    {
      ok := true;
      if channelOpen {
        channelOpen := false;
        ok := *;
      }
    }
  }

  // ---------------------------------------------------------------- how backoffs grow

  /** `n` doubled `k` times. */
  function Scaled(n: int, k: nat): int
  {
    if k == 0 then n else 2 * Scaled(n, k - 1)
  }

  /** The backoff after `k` failures in a row. */
  function AfterFailures(backoff: int, max: int, k: nat): int
  {
    if k == 0 then backoff else Doubled(AfterFailures(backoff, max, k - 1), max)
  }

  lemma {:induction false} ScaledPositive(n: int, k: nat)
    requires n > 0
    ensures Scaled(n, k) > 0
  {
    if k > 0 {
      ScaledPositive(n, k - 1);
    }
  }

  /** Failures in a row double the backoff until it reaches the maximum, and no further. */
  lemma {:induction false} FailuresDouble(backoff: int, max: int, k: nat)
    requires 0 < backoff <= max < TWO_63 / 2
    ensures AfterFailures(backoff, max, k) == if Scaled(backoff, k) <= max then Scaled(backoff, k) else max
  {
    if k > 0 {
      FailuresDouble(backoff, max, k - 1);
      ScaledPositive(backoff, k - 1);
    }
  }

  /** A success undoes one failure, unless the maximum cut the doubling short. */
  lemma SuccessUndoesFailure(backoff: int, min: int, max: int)
    requires 0 < min <= backoff <= max < TWO_63 / 2
    ensures Halved(Doubled(backoff, max), min) == backoff
       <==> 2 * backoff <= max || max / 2 == backoff || (max / 2 < min && backoff == min)
  {
  }

  /** The maximum a copied node is left with holds every failure's backoff at zero. */
  lemma {:induction false} CopiedBackoffCollapses(backoff: int, k: nat)
    requires 0 <= backoff < TWO_63 / 2
    ensures AfterFailures(backoff, 0, k) == if k == 0 then backoff else 0
  {
    if k > 0 {
      CopiedBackoffCollapses(backoff, k - 1);
    }
  }

  /** A node copied for a change of transport security is due again the moment after it fails,
      though the node it was copied from would have been kept out. */
  method FailureOfCopy(from: Node, secure: bool, clock: Clock) returns (copy: Node)
    requires from.BackoffInRange()
    modifies clock
    ensures fresh(copy) && copy.readmitTime == Some(clock.now)
    ensures forall t :: clock.now < t ==> copy.HealthyAt(t)
    ensures !(forall t :: t <= clock.now + copy.minBackoff ==> !copy.HealthyAt(t))
  {
    copy := new Node.Copy(from, secure);
    copy.IncreaseBackoff(clock);
  }
}
