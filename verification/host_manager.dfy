/** The node's directory of peer hosts and its arbitration between their
    header chains (src/core/host_manager.cpp). The clock, the peers'
    answers to `/block_count` and `/name`, and the host-list downloads
    enter as parameters; the threads, sockets and files are not modelled.
    Iterating a `std::map` or `std::set` of strings visits its keys in
    lexicographic order, modelled by LexOrder.SortedStrings, so every
    operation that walks `hostPingTimes` is a ghost function. */
module HostManager {
  import opened Types
  import opened Wrappers
  import opened LexOrder
  import Sorting
  import HeaderChain
  import Blocks

  const ADD_PEER_BRANCH_FACTOR: nat := 10
  const RANDOM_GOOD_HOST_COUNT: nat := 9
  /** 180 * 60 seconds: three hours. */
  const HOST_MIN_FRESHNESS: nat := 10800

  const JS_HOST_MARK: string := "peer://"

  /** The hosts sampleFreshHosts falls back to when no fresh host answers. */
  const FIXED_HOSTS: set<string> :=
    {"http://94.130.69.234:6002", "http://88.119.169.111:3000", "http://65.108.201.144:3005"}

  datatype HostManager = HostManager(
    address: string,
    networkName: string,
    minHostVersion: string,
    hostSources: seq<string>,
    hosts: seq<string>,
    hostPingTimes: map<string, u64>,
    peerClockDeltas: map<string, u64>,
    currPeers: seq<HeaderChain.HeaderChain>,
    blacklist: set<string>,
    whitelist: set<string>,
    checkpoints: map<nat, Hash>,
    bannedHashes: map<nat, Hash>,
    hasBlockStore: bool)

  // ---------------------------------------------------------------------
  // isJsHost and the blacklist / whitelist files

  /** `pat` occurs in `s` starting at index `i`. */
  predicate OccursAt(pat: string, s: string, i: nat) {
    i + |pat| <= |s| && s[i..i + |pat|] == pat
  }

  /** `std::string::find` from index `i` succeeds. */
  function FindFrom(pat: string, s: string, i: nat): (r: bool)
    requires i <= |s|
    ensures r <==> exists j :: i <= j && OccursAt(pat, s, j)
    decreases |s| - i
  {
    if i + |pat| > |s| then false
    else if s[i..i + |pat|] == pat then assert OccursAt(pat, s, i); true
    else FindFrom(pat, s, i + 1)
  }

  /** Lines 31-33: a browser peer, reached through a relay, is named by an
      address containing "peer://" anywhere. */
  function IsJsHost(addr: string): (r: bool)
    ensures r <==> exists j :: OccursAt(JS_HOST_MARK, addr, j)
  {
    FindFrom(JS_HOST_MARK, addr, 0)
  }

  lemma RelayAddressIsJsHost(rest: string)
    ensures IsJsHost(JS_HOST_MARK + rest)
  {
    assert OccursAt(JS_HOST_MARK, JS_HOST_MARK + rest, 0);
  }

  /** A host whose address holds no 'p' is never a browser peer. */
  lemma NoMarkNoJsHost(addr: string)
    requires forall i :: 0 <= i < |addr| ==> addr[i] != 'p'
    ensures !IsJsHost(addr)
  {
    forall j: nat | j + |JS_HOST_MARK| <= |addr| ensures !OccursAt(JS_HOST_MARK, addr, j) {
      assert addr[j..j + |JS_HOST_MARK|][0] == addr[j] != JS_HOST_MARK[0];
    }
  }

  /** Lines 134-139 and 150-155: one line of blacklist.txt or
      whitelist.txt. A line starting with '#' is a comment; any other line
      names a host, one trailing '/' dropped. An empty line would index
      before its start, so lines are non-empty. */
  function ListEntry(line: string): (r: Option<string>)
    requires |line| > 0
    ensures r.None? <==> line[0] == '#'
    ensures r.Some? ==> r.value == line || r.value + "/" == line
    ensures r.Some? ==> (|r.value| < |line| <==> line[|line| - 1] == '/')
  {
    if line[0] == '#' then None
    else if line[|line| - 1] == '/' then Some(line[..|line| - 1])
    else Some(line)
  }

  /** The set one of the files loads into. */
  function LoadList(lines: seq<string>): (r: set<string>)
    requires forall i :: 0 <= i < |lines| ==> |lines[i]| > 0
    ensures forall x :: x in r <==> exists i :: 0 <= i < |lines| && ListEntry(lines[i]) == Some(x)
  {
    if |lines| == 0 then {}
    else
      var rest := LoadList(lines[1..]);
      assert forall i :: 1 <= i < |lines| ==> lines[1..][i - 1] == lines[i];
      match ListEntry(lines[0])
      case None => rest
      case Some(x) => {x} + rest
  }

  /** Listing a host with or without its trailing slash blocks or enables
      the same host. */
  lemma TrailingSlashIgnored(host: string)
    requires |host| > 0 && host[0] != '#' && host[|host| - 1] != '/'
    ensures ListEntry(host) == Some(host)
    ensures ListEntry(host + "/") == Some(host)
  {
    assert (host + "/")[..|host|] == host;
  }

  // ---------------------------------------------------------------------
  // Freshness

  /** Lines 202-204: the age of a ping is taken in unsigned 64-bit
      arithmetic, so a ping time ahead of the clock wraps to a huge age. */
  predicate Fresh(now: u64, pinged: u64) {
    Wrap64(now - pinged) < HOST_MIN_FRESHNESS
  }

  lemma FreshSpec(now: u64, pinged: u64)
    ensures pinged <= now ==> (Fresh(now, pinged) <==> now - pinged < HOST_MIN_FRESHNESS)
    ensures now < pinged ==> (Fresh(now, pinged) <==> pinged - now > U64_LIMIT - HOST_MIN_FRESHNESS)
  {
    if now < pinged {
      assert Wrap64(now - pinged) == now - pinged + U64_LIMIT;
    }
  }

  // ---------------------------------------------------------------------
  // getNetworkTimestamp

  /** A host whose clock delta enters the median: it pinged within the
      freshness window and has a recorded delta. */
  predicate Contributes(m: HostManager, now: u64, host: string) {
    host in m.hostPingTimes && Fresh(now, m.hostPingTimes[host]) && host in m.peerClockDeltas
  }

  /** The recorded delta, read back as `int32_t`. */
  function ClockDelta(m: HostManager, host: string): (d: int)
    requires host in m.peerClockDeltas
    ensures -0x8000_0000 <= d < 0x8000_0000
  {
    ToInt32(m.peerClockDeltas[host])
  }

  /** Lines 201-210: the deltas gathered while walking `keys`. */
  function CollectDeltas(m: HostManager, now: u64, keys: seq<string>): (d: seq<int>)
    ensures |d| <= |keys|
    ensures forall x :: x in d <==>
      exists i :: 0 <= i < |keys| && Contributes(m, now, keys[i]) && x == ClockDelta(m, keys[i])
  {
    if |keys| == 0 then []
    else
      var rest := CollectDeltas(m, now, keys[1..]);
      assert forall i :: 1 <= i < |keys| ==> keys[1..][i - 1] == keys[i];
      if Contributes(m, now, keys[0]) then [ClockDelta(m, keys[0])] + rest else rest
  }

  /** Lines 217-224: the median of sorted deltas. For an even count the two
      middle `int32_t` values are added in `int`, which wraps (written out
      with ToInt32; the language leaves overflow undefined), and the sum is
      halved with C++ division, which truncates toward zero. */
  function Median(s: seq<int>): (med: int)
    requires |s| > 0
  {
    var n := |s|;
    if n % 2 == 0 then CDiv(ToInt32(s[n / 2] + s[n / 2 - 1]), 2) else s[n / 2]
  }

  /** The sum of the two middle values fits an `int`, so line 219 does not
      overflow. */
  predicate MiddleSumFits(s: seq<int>)
    requires |s| > 0
  {
    var n := |s|;
    n % 2 == 1 || -0x8000_0000 <= s[n / 2] + s[n / 2 - 1] < 0x8000_0000
  }

  lemma CDivMidpoint(a: int, b: int)
    requires a <= b
    ensures a <= CDiv(a + b, 2) <= b
  {
  }

  /** Without overflow, the median of an ascending list lies between its
      extremes. */
  lemma MedianBounds(s: seq<int>)
    requires |s| > 0 && Sorting.Ascending(s) && MiddleSumFits(s)
    ensures s[0] <= Median(s) <= s[|s| - 1]
  {
    var n := |s|;
    if n % 2 == 0 {
      assert s[0] <= s[n / 2 - 1] <= s[n / 2] <= s[n - 1];
      CDivMidpoint(s[n / 2 - 1], s[n / 2]);
    }
  }

  /** Without overflow, the average of an even count is the middle pair's
      sum halved and rounded toward zero, not down: twice the median misses
      the sum by at most one, on the side of zero. */
  lemma MedianRoundsTowardZero(s: seq<int>)
    requires |s| > 0 && |s| % 2 == 0 && MiddleSumFits(s)
    ensures var t := s[|s| / 2] + s[|s| / 2 - 1];
      && -1 <= t - 2 * Median(s) <= 1
      && (t >= 0 ==> 2 * Median(s) <= t)
      && (t <= 0 ==> t <= 2 * Median(s))
  {
  }

  /** Two peers whose clocks both run 1760000000 seconds behind: the middle
      pair's sum overflows `int`, and the wrapped average lies outside every
      delta. */
  lemma MedianOverflows()
    ensures !MiddleSumFits([1760000000, 1760000000])
    ensures Median([1760000000, 1760000000]) == -387483648
  {
  }

  /** A sorted arrangement is unique, so the median does not depend on the
      order the deltas were gathered in. */
  lemma MedianOfSortIgnoresOrder(a: seq<int>, b: seq<int>)
    requires multiset(a) == multiset(b) && |a| > 0
    ensures |Sorting.SortInts(b)| > 0
    ensures Median(Sorting.SortInts(a)) == Median(Sorting.SortInts(b))
  {
    Sorting.SortedPermutationUnique(Sorting.SortInts(a), Sorting.SortInts(b));
  }

  /** The hosts of `hostPingTimes` in the order the walk of lines 201-210
      visits them: `std::map` order, ascending and each host once. */
  ghost function PingOrder(m: HostManager): (keys: seq<string>)
    ensures forall h :: h in keys <==> h in m.hostPingTimes
    ensures Sorting.Distinct(keys)
    ensures forall i :: 0 < i < |keys| ==> StringLess(keys[i - 1], keys[i])
  {
    var sorted := SortedStrings(m.hostPingTimes.Keys);
    assert forall i :: 0 < i < |sorted| ==> StringLess(sorted[i - 1], sorted[i]);
    var keys :| && (forall h :: h in keys <==> h in m.hostPingTimes)
                && Sorting.Distinct(keys)
                && (forall i :: 0 < i < |keys| ==> StringLess(keys[i - 1], keys[i]));
    keys
  }

  /** The hosts of `keys` whose delta is collected, in walk order. */
  function ContributorsIn(m: HostManager, now: u64, keys: seq<string>): (r: seq<string>)
    ensures forall h :: h in r <==> h in keys && Contributes(m, now, h)
    ensures forall i :: 0 <= i < |r| ==> Contributes(m, now, r[i])
    ensures Sorting.Distinct(keys) ==> Sorting.Distinct(r)
  {
    if |keys| == 0 then []
    else
      var rest := ContributorsIn(m, now, keys[1..]);
      assert forall h :: h in keys <==> h == keys[0] || h in keys[1..];
      assert Sorting.Distinct(keys) ==> keys[0] !in keys[1..];
      if Contributes(m, now, keys[0]) then [keys[0]] + rest else rest
  }

  /** The walk pushes one delta per contributing host, in walk order. */
  lemma {:induction false} CollectDeltasPerHost(m: HostManager, now: u64, keys: seq<string>)
    ensures var hs := ContributorsIn(m, now, keys);
      && |CollectDeltas(m, now, keys)| == |hs|
      && forall i :: 0 <= i < |hs| ==> CollectDeltas(m, now, keys)[i] == ClockDelta(m, hs[i])
  {
    if |keys| > 0 {
      CollectDeltasPerHost(m, now, keys[1..]);
    }
  }

  /** The deltas getNetworkTimestamp collects, in map order. */
  ghost function NetworkDeltas(m: HostManager, now: u64): (d: seq<int>) {
    CollectDeltas(m, now, PingOrder(m))
  }

  /** The deltas come one per contributing host: they are the clock deltas
      of a duplicate-free list of exactly the contributing hosts. */
  lemma NetworkDeltasPerHost(m: HostManager, now: u64)
    ensures var hs := ContributorsIn(m, now, PingOrder(m));
      && Sorting.Distinct(hs)
      && (forall h :: h in hs <==> Contributes(m, now, h))
      && |NetworkDeltas(m, now)| == |hs|
      && forall i :: 0 <= i < |hs| ==> NetworkDeltas(m, now)[i] == ClockDelta(m, hs[i])
  {
    var keys := PingOrder(m);
    assert forall h :: Contributes(m, now, h) ==> h in keys;
    CollectDeltasPerHost(m, now, keys);
  }

  /** Exactly the fresh peers' deltas are collected. */
  lemma NetworkDeltasMembers(m: HostManager, now: u64)
    ensures forall x :: x in NetworkDeltas(m, now) <==> exists h :: Contributes(m, now, h) && x == ClockDelta(m, h)
  {
    NetworkDeltasPerHost(m, now);
    var hs := ContributorsIn(m, now, PingOrder(m));
    var d := NetworkDeltas(m, now);
    forall x | x in d
      ensures exists h :: Contributes(m, now, h) && x == ClockDelta(m, h)
    {
      var i :| 0 <= i < |d| && d[i] == x;
      assert Contributes(m, now, hs[i]);
    }
    forall h | Contributes(m, now, h)
      ensures ClockDelta(m, h) in d
    {
      var i :| 0 <= i < |hs| && hs[i] == h;
      assert d[i] == ClockDelta(m, h);
    }
  }

  /** The deltas after `std::sort`: their ascending arrangement, which is
      unique (Sorting.SortedPermutationUnique). */
  ghost function SortedDeltas(d: seq<int>): (s: seq<int>)
    ensures |s| == |d| && Sorting.Ascending(s) && multiset(s) == multiset(d)
  {
    assert Sorting.Ascending(Sorting.SortInts(d));
    var s :| |s| == |d| && Sorting.Ascending(s) && multiset(s) == multiset(d);
    s
  }

  /** Lines 198-227: the clock corrected by the median of the fresh peers'
      deltas, or the clock itself when no fresh peer has one. The sum is
      taken in 64-bit unsigned arithmetic. */
  ghost function NetworkTimestamp(m: HostManager, now: u64): (r: u64)
    ensures (forall h :: !Contributes(m, now, h)) <==> |NetworkDeltas(m, now)| == 0
    ensures |NetworkDeltas(m, now)| == 0 ==> r == now
  {
    var d := NetworkDeltas(m, now);
    assert (forall h :: !Contributes(m, now, h)) <==> |d| == 0 by {
      NetworkDeltasMembers(m, now);
      if |d| > 0 {
        assert d[0] in d;
      }
      forall h | Contributes(m, now, h) ensures |d| > 0 {
        assert ClockDelta(m, h) in d;
      }
    }
    if |d| == 0 then now
    else Wrap64(now + Median(SortedDeltas(d)))
  }

  /** Whatever the order the deltas were gathered in, the correction is the
      median of their ascending arrangement. */
  lemma NetworkTimestampIsMedian(m: HostManager, now: u64, s: seq<int>)
    requires |s| > 0 && Sorting.Ascending(s) && multiset(s) == multiset(NetworkDeltas(m, now))
    ensures NetworkTimestamp(m, now) == Wrap64(now + Median(s))
  {
    assert |NetworkDeltas(m, now)| == |multiset(NetworkDeltas(m, now))| == |s|;
    Sorting.SortedPermutationUnique(s, SortedDeltas(NetworkDeltas(m, now)));
  }

  /** With exactly two fresh peers, the network deltas are their two clock
      deltas, each once. */
  lemma TwoHostDeltas(m: HostManager, now: u64, a: string, b: string)
    requires a != b && Contributes(m, now, a) && Contributes(m, now, b)
    requires forall h :: Contributes(m, now, h) ==> h == a || h == b
    ensures multiset(NetworkDeltas(m, now)) == multiset{ClockDelta(m, a), ClockDelta(m, b)}
  {
    NetworkDeltasPerHost(m, now);
    var hs := ContributorsIn(m, now, PingOrder(m));
    Sorting.DistinctPair(hs, a, b);
    assert NetworkDeltas(m, now) == [ClockDelta(m, hs[0]), ClockDelta(m, hs[1])];
  }

  /** The median of two values is their truncated average. */
  lemma MedianOfTwo(x: int, y: int)
    ensures Median(if x <= y then [x, y] else [y, x]) == CDiv(ToInt32(x + y), 2)
  {
    var s := if x <= y then [x, y] else [y, x];
    assert |s| == 2 && s[1] + s[0] == x + y;
  }

  /** With exactly two fresh peers, the correction is the average of their
      two deltas, each counted once. */
  lemma NetworkTimestampTwoHosts(m: HostManager, now: u64, a: string, b: string)
    requires a != b && Contributes(m, now, a) && Contributes(m, now, b)
    requires forall h :: Contributes(m, now, h) ==> h == a || h == b
    ensures NetworkTimestamp(m, now) == Wrap64(now + CDiv(ToInt32(ClockDelta(m, a) + ClockDelta(m, b)), 2))
  {
    var da := ClockDelta(m, a);
    var db := ClockDelta(m, b);
    TwoHostDeltas(m, now, a, b);
    var s := if da <= db then [da, db] else [db, da];
    assert multiset(s) == multiset{da, db};
    MedianOfTwo(da, db);
    NetworkTimestampIsMedian(m, now, s);
  }

  /** The host a collected delta came from. */
  lemma DeltaSource(m: HostManager, now: u64, x: int) returns (h: string)
    requires x in NetworkDeltas(m, now)
    ensures Contributes(m, now, h) && ClockDelta(m, h) == x
  {
    NetworkDeltasMembers(m, now);
    h :| Contributes(m, now, h) && x == ClockDelta(m, h);
  }

  /** Every fresh delta lies within 2^30 seconds (about 34 years) of zero,
      so no two of them overflow `int` when added. */
  ghost predicate SmallDeltas(m: HostManager, now: u64) {
    forall h :: Contributes(m, now, h) ==> -0x4000_0000 <= ClockDelta(m, h) < 0x4000_0000
  }

  /** A fresh peer contributes at least one delta. */
  lemma FreshDeltasPresent(m: HostManager, now: u64)
    requires exists h :: Contributes(m, now, h)
    ensures |NetworkDeltas(m, now)| > 0
  {
    NetworkDeltasMembers(m, now);
    var h :| Contributes(m, now, h);
    assert ClockDelta(m, h) in NetworkDeltas(m, now);
  }

  /** Small deltas keep the middle-pair sum within `int`. */
  lemma SmallDeltasFit(m: HostManager, now: u64)
    requires |NetworkDeltas(m, now)| > 0 && SmallDeltas(m, now)
    ensures MiddleSumFits(SortedDeltas(NetworkDeltas(m, now)))
  {
    var d := NetworkDeltas(m, now);
    var sd := SortedDeltas(d);
    var n := |sd|;
    if n % 2 == 0 {
      assert sd[n / 2] in multiset(d) && sd[n / 2 - 1] in multiset(d);
      var a := DeltaSource(m, now, sd[n / 2]);
      var b := DeltaSource(m, now, sd[n / 2 - 1]);
    }
  }

  /** With a fresh delta present and no overflow, the correction lies
      between two fresh peers' deltas. */
  lemma NetworkTimestampWithin(m: HostManager, now: u64) returns (med: int)
    requires exists h :: Contributes(m, now, h)
    requires SmallDeltas(m, now)
    ensures NetworkTimestamp(m, now) == Wrap64(now + med)
    ensures exists lo :: Contributes(m, now, lo) && ClockDelta(m, lo) <= med
    ensures exists hi :: Contributes(m, now, hi) && med <= ClockDelta(m, hi)
  {
    var d := NetworkDeltas(m, now);
    FreshDeltasPresent(m, now);
    SmallDeltasFit(m, now);
    var sd := SortedDeltas(d);
    med := MedianBetween(d);
    var lo := DeltaSource(m, now, sd[0]);
    var hi := DeltaSource(m, now, sd[|d| - 1]);
  }

  /** The median of the sorted values lies between two of the values. */
  lemma MedianBetween(d: seq<int>) returns (med: int)
    requires |d| > 0 && MiddleSumFits(SortedDeltas(d))
    ensures med == Median(SortedDeltas(d))
    ensures SortedDeltas(d)[0] in d && SortedDeltas(d)[|d| - 1] in d
    ensures SortedDeltas(d)[0] <= med <= SortedDeltas(d)[|d| - 1]
  {
    MedianBounds(SortedDeltas(d));
    med := Median(SortedDeltas(d));
    assert SortedDeltas(d)[0] in multiset(SortedDeltas(d));
    assert SortedDeltas(d)[|d| - 1] in multiset(SortedDeltas(d));
  }

  // ---------------------------------------------------------------------
  // getGoodHost, getBlockCount, getTotalWork: the peer with the most work

  /** The work peer `j` reports; a failed chain reports none. */
  function Work(peers: seq<HeaderChain.HeaderChain>, j: nat): nat
    requires j < |peers|
  {
    HeaderChain.GetTotalWork(peers[j])
  }

  /** Peer `i` is the one a scan with a strict `>` settles on: positive
      work that no peer exceeds, and more than every peer before it. */
  ghost predicate FirstBest(peers: seq<HeaderChain.HeaderChain>, i: nat) {
    && i < |peers| && Work(peers, i) > 0
    && (forall j :: 0 <= j < |peers| ==> Work(peers, j) <= Work(peers, i))
    && (forall j :: 0 <= j < i ==> Work(peers, j) < Work(peers, i))
  }

  ghost predicate NoWork(peers: seq<HeaderChain.HeaderChain>) {
    forall j :: 0 <= j < |peers| ==> Work(peers, j) == 0
  }

  /** What the scan holds after the first `n` peers: the best work so far
      (0 to start with) and the peer that first reached it. */
  ghost predicate ScanState(peers: seq<HeaderChain.HeaderChain>, n: nat, bestWork: nat, best: Option<nat>) {
    && n <= |peers|
    && (best.None? ==> bestWork == 0 && forall j :: 0 <= j < n ==> Work(peers, j) == 0)
    && (best.Some? ==>
         && best.value < n && Work(peers, best.value) == bestWork && bestWork > 0
         && (forall j :: 0 <= j < n ==> Work(peers, j) <= bestWork)
         && (forall j :: 0 <= j < best.value ==> Work(peers, j) < bestWork))
  }

  /** The loops of lines 238-243, 267-272 and 283-287. */
  function Scan(peers: seq<HeaderChain.HeaderChain>, n: nat, bestWork: nat, best: Option<nat>): (r: (nat, Option<nat>))
    requires ScanState(peers, n, bestWork, best)
    ensures ScanState(peers, |peers|, r.0, r.1)
    decreases |peers| - n
  {
    if n == |peers| then (bestWork, best)
    else if Work(peers, n) > bestWork then Scan(peers, n + 1, Work(peers, n), Some(n))
    else Scan(peers, n + 1, bestWork, best)
  }

  /** At most one peer is the first best. */
  lemma FirstBestUnique(peers: seq<HeaderChain.HeaderChain>, i: nat, k: nat)
    requires FirstBest(peers, i) && FirstBest(peers, k)
    ensures i == k
  {
    if i < k {
      assert false;
    } else if k < i {
      assert false;
    }
  }

  /** The finished scan names the first best peer, or none when no peer
      has work. */
  lemma ScanResult(peers: seq<HeaderChain.HeaderChain>)
    ensures ScanState(peers, 0, 0, None)
    ensures Scan(peers, 0, 0, None).1.None? <==> NoWork(peers)
    ensures Scan(peers, 0, 0, None).1.Some? ==> FirstBest(peers, Scan(peers, 0, 0, None).1.value)
  {
    var r := Scan(peers, 0, 0, None);
    if r.1.Some? {
      assert Work(peers, r.1.value) > 0;
    }
  }

  /** Some peer is the first best exactly when some peer has work. */
  lemma FirstBestExists(peers: seq<HeaderChain.HeaderChain>)
    ensures !NoWork(peers) <==> exists i :: FirstBest(peers, i)
  {
    ScanResult(peers);
    if !NoWork(peers) {
      assert FirstBest(peers, Scan(peers, 0, 0, None).1.value);
    }
  }

  /** Lines 233-245: the host of the first peer with the most work; the
      first peer when none has any; "" with no peers. */
  function GetGoodHost(peers: seq<HeaderChain.HeaderChain>): (r: string)
    ensures |peers| == 0 ==> r == ""
    ensures |peers| > 0 && NoWork(peers) ==> r == peers[0].host
    ensures forall i: nat :: FirstBest(peers, i) ==> r == peers[i].host
  {
    if |peers| == 0 then ""
    else
      ScanResult(peers);
      var best := Scan(peers, 0, 0, None).1;
      assert forall i: nat :: FirstBest(peers, i) ==> best == Some(i) by {
        forall i: nat | FirstBest(peers, i) ensures best == Some(i) {
          FirstBestUnique(peers, i, best.value);
        }
      }
      if best.Some? then peers[best.value].host else peers[0].host
  }

  /** Lines 262-274: the chain length of that same peer, 0 when no peer
      has work. */
  function GetBlockCount(peers: seq<HeaderChain.HeaderChain>): (r: nat)
    ensures NoWork(peers) ==> r == 0
    ensures forall i: nat :: FirstBest(peers, i) ==> r == peers[i].chainLength
  {
    ScanResult(peers);
    var best := Scan(peers, 0, 0, None).1;
    assert forall i: nat :: FirstBest(peers, i) ==> best == Some(i) by {
      forall i: nat | FirstBest(peers, i) ensures best == Some(i) {
        FirstBestUnique(peers, i, best.value);
      }
    }
    if best.Some? then HeaderChain.GetChainLength(peers[best.value]) else 0
  }

  /** Lines 279-289: the greatest work any peer reports, 0 when none has
      any. */
  function GetTotalWork(peers: seq<HeaderChain.HeaderChain>): (r: nat)
    ensures forall j :: 0 <= j < |peers| ==> Work(peers, j) <= r
    ensures r == 0 || exists j :: 0 <= j < |peers| && Work(peers, j) == r
  {
    ScanResult(peers);
    Scan(peers, 0, 0, None).0
  }

  /** A peer whose last load() could not reach it reports no work, so
      getGoodHost and getBlockCount never follow it: when any peer has work,
      both follow another peer, the first with the most work. */
  lemma UnreachablePeerNotChosen(c: Blocks.Crypto, perFetch: nat, peers: seq<HeaderChain.HeaderChain>, j: nat,
                                 chain: HeaderChain.HeaderChain, fetch: (nat, nat) -> HeaderChain.BatchReply)
    requires perFetch > 0 && j < |peers|
    requires peers[j] == HeaderChain.Load(c, perFetch, chain, None, fetch)
    ensures !FirstBest(peers, j)
    ensures !NoWork(peers) ==>
      exists i: nat :: (i != j && FirstBest(peers, i)
                        && GetGoodHost(peers) == peers[i].host && GetBlockCount(peers) == peers[i].chainLength)
  {
    HeaderChain.UnreachableReportsNothing(c, perFetch, chain, fetch);
    FirstBestExists(peers);
  }

  /** The first peer following `host`, if any. */
  function FindPeer(peers: seq<HeaderChain.HeaderChain>, host: string, n: nat): (r: Option<nat>)
    requires n <= |peers|
    requires forall j :: 0 <= j < n ==> peers[j].host != host
    ensures r.None? <==> forall j :: 0 <= j < |peers| ==> peers[j].host != host
    ensures r.Some? ==> r.value < |peers| && peers[r.value].host == host
    ensures r.Some? ==> forall j :: 0 <= j < r.value ==> peers[j].host != host
    decreases |peers| - n
  {
    if n == |peers| then None
    else if peers[n].host == host then Some(n)
    else FindPeer(peers, host, n + 1)
  }

  /** getHash is defined at `blockId` for the first peer following `host`. */
  predicate BlockHashDefined(peers: seq<HeaderChain.HeaderChain>, host: string, blockId: u64) {
    var k := FindPeer(peers, host, 0);
    k.Some? ==> HeaderChain.GetHashDefined(peers[k.value], blockId)
  }

  /** Lines 294-304: the first peer following `host` answers; NULL when no
      peer follows it. */
  function GetBlockHash(peers: seq<HeaderChain.HeaderChain>, host: string, blockId: u64): (r: Hash)
    requires BlockHashDefined(peers, host, blockId)
    ensures (forall j :: 0 <= j < |peers| ==> peers[j].host != host) ==> r == NULL_HASH
    ensures forall i :: (0 <= i < |peers| && peers[i].host == host
                         && (forall j :: 0 <= j < i ==> peers[j].host != host))
                        ==> r == HeaderChain.GetHash(peers[i], blockId)
  {
    var k := FindPeer(peers, host, 0);
    if k.None? then NULL_HASH
    else
      assert forall i :: (0 <= i < |peers| && peers[i].host == host
                          && (forall j :: 0 <= j < i ==> peers[j].host != host))
                         ==> i == k.value;
      HeaderChain.GetHash(peers[k.value], blockId)
  }

  // ---------------------------------------------------------------------
  // sampleFreshHosts

  /** A host sampleFreshHosts may pick: it pinged recently, is not a
      browser peer, and answered `/block_count`. */
  predicate Candidate(pingTimes: map<string, u64>, now: u64, height: string -> Option<u32>, h: string) {
    h in pingTimes && Fresh(now, pingTimes[h]) && !IsJsHost(h) && height(h).Some?
  }

  /** The reported height as it is stored, in an `int`. */
  function Height(height: string -> Option<u32>, h: string): int
    requires height(h).Some?
  {
    ToInt32(height(h).value)
  }

  ghost function Candidates(pingTimes: map<string, u64>, now: u64, height: string -> Option<u32>): (r: set<string>)
    ensures forall h :: h in r <==> Candidate(pingTimes, now, height, h)
  {
    set h | h in pingTimes.Keys && Candidate(pingTimes, now, height, h)
  }

  /** A possible result of the sort at lines 335-338: every candidate once,
      highest first. `std::sort` is not stable, so hosts of equal height
      may come in any order. */
  ghost predicate ByHeight(order: seq<string>, cands: set<string>, height: string -> Option<u32>) {
    && Sorting.Distinct(order)
    && (forall h :: h in order <==> h in cands)
    && (forall h :: h in order ==> height(h).Some?)
    && (forall i, j :: 0 <= i < j < |order| ==> Height(height, order[j]) <= Height(height, order[i]))
  }

  function HeightKey(height: string -> Option<u32>): (key: string -> int)
    ensures forall h :: height(h).Some? ==> key(h) == -Height(height, h)
  {
    h => if height(h).Some? then -Height(height, h) else 0
  }

  /** Distinct hosts arranged by descending height form a `ByHeight`
      order. */
  lemma SortedIsByHeight(e: seq<string>, o: seq<string>, cands: set<string>, height: string -> Option<u32>)
    requires Sorting.Distinct(e) && (forall h :: h in e <==> h in cands)
    requires forall h :: h in cands ==> height(h).Some?
    requires multiset(o) == multiset(e) && Sorting.SortedBy(o, HeightKey(height))
    ensures ByHeight(o, cands, height)
  {
    Sorting.PermutationKeepsDistinct(e, o);
    assert forall h :: h in o <==> h in cands by {
      forall h ensures h in o <==> h in cands {
        assert h in o <==> h in multiset(o);
        assert h in e <==> h in multiset(e);
      }
    }
  }

  lemma ByHeightExists(cands: set<string>, height: string -> Option<u32>)
    requires forall h :: h in cands ==> height(h).Some?
    ensures exists order :: ByHeight(order, cands, height)
  {
    var e := SortedStrings(cands);
    var o := Sorting.SortBy(e, HeightKey(height));
    SortedIsByHeight(e, o, cands, height);
  }

  /** The first `n` hosts of `order`, as a set. */
  function Take(order: seq<string>, n: int): (r: set<string>)
    ensures forall h :: h in r <==> exists i :: 0 <= i < n && i < |order| && order[i] == h
  {
    set i | 0 <= i < n && i < |order| :: order[i]
  }

  lemma {:induction false} TakeSize(order: seq<string>, n: nat)
    requires Sorting.Distinct(order) && n <= |order|
    ensures |Take(order, n)| == n
  {
    if n > 0 {
      TakeSize(order, n - 1);
      assert Take(order, n) == Take(order, n - 1) + {order[n - 1]};
      assert order[n - 1] !in Take(order, n - 1);
    }
  }

  /** `min(count, n)` as an `int`, with a negative count picking nothing. */
  function Clamp(count: int, n: nat): (k: nat)
    ensures k <= n
    ensures count <= 0 ==> k == 0
    ensures 0 <= count <= n ==> k == count
    ensures count >= n ==> k == n
  {
    if count <= 0 then 0 else if count < n then count else n
  }

  /** Taking the first `count` hosts of a height order picks min(count,
      n) distinct candidates, none lower than a candidate left out. */
  lemma TakeByHeight(order: seq<string>, cands: set<string>, height: string -> Option<u32>, count: int)
    requires ByHeight(order, cands, height)
    ensures Take(order, count) <= cands
    ensures |Take(order, count)| == Clamp(count, |cands|)
    ensures forall a, b :: (a in Take(order, count) && b in cands && b !in Take(order, count))
                           ==> height(a).Some? && height(b).Some? && Height(height, b) <= Height(height, a)
  {
    assert Take(order, |order|) == cands;
    TakeSize(order, |order|);
    assert Take(order, count) == Take(order, Clamp(count, |order|));
    TakeSize(order, Clamp(count, |order|));
    forall a, b | a in Take(order, count) && b in cands && b !in Take(order, count)
      ensures height(a).Some? && height(b).Some? && Height(height, b) <= Height(height, a)
    {
      var i :| 0 <= i < count && i < |order| && order[i] == a;
      var j :| 0 <= j < |order| && order[j] == b;
      assert i < j;
    }
  }

  /** Lines 311-350: up to `count` fresh hosts, highest reported chains
      first; the three fixed hosts when no fresh host answers, whatever the
      count. */
  ghost function SampleFreshHosts(pingTimes: map<string, u64>, now: u64, height: string -> Option<u32>,
                                  count: int): (r: set<string>)
    ensures Candidates(pingTimes, now, height) == {} ==> r == FIXED_HOSTS
    ensures Candidates(pingTimes, now, height) != {} ==>
      && r <= Candidates(pingTimes, now, height)
      && |r| == Clamp(count, |Candidates(pingTimes, now, height)|)
      && forall a, b :: a in r && b in Candidates(pingTimes, now, height) && b !in r
           ==> height(a).Some? && height(b).Some? && Height(height, b) <= Height(height, a)
  {
    var cands := Candidates(pingTimes, now, height);
    if cands == {} then FIXED_HOSTS
    else
      ByHeightExists(cands, height);
      var order :| ByHeight(order, cands, height);
      TakeByHeight(order, cands, height, count);
      Take(order, count)
  }

  lemma FixedHostsCount()
    ensures |FIXED_HOSTS| == 3
  {
    var a, b, c := "http://94.130.69.234:6002", "http://88.119.169.111:3000", "http://65.108.201.144:3005";
    assert a[7] == '9' && b[7] == '8' && c[7] == '6';
    assert a != b && b != c && a != c;
    assert FIXED_HOSTS == {a} + {b} + {c};
  }

  /** The sample never holds more than `count` hosts once some host is
      fresh, and never more than three otherwise. */
  lemma SampleSize(pingTimes: map<string, u64>, now: u64, height: string -> Option<u32>, count: nat)
    ensures |SampleFreshHosts(pingTimes, now, height, count)| <= if count < 3 then 3 else count
  {
    FixedHostsCount();
  }

  // ---------------------------------------------------------------------
  // addPeer

  lemma DistinctAppend(a: seq<string>, b: seq<string>)
    requires Sorting.Distinct(a) && Sorting.Distinct(b)
    requires forall x :: x in b ==> x !in a
    ensures Sorting.Distinct(a + b)
  {
    forall i, j | 0 <= i < j < |a + b| ensures (a + b)[i] != (a + b)[j] {
      if j < |a| {
        assert (a + b)[j] == a[j] && (a + b)[i] == a[i];
      } else if i < |a| {
        assert (a + b)[j] == b[j - |a|] && (a + b)[i] == a[i];
        assert b[j - |a|] in b && a[i] in a;
      } else {
        assert (a + b)[j] == b[j - |a|] && (a + b)[i] == b[i - |a|];
      }
    }
  }

  /** Lines 356-360: the tests that drop an announcement outright. */
  predicate RejectsAnnouncement(m: HostManager, addr: string, version: string, network: string) {
    network != m.networkName || StringLess(version, m.minHostVersion) || addr in m.blacklist
  }

  /** Lines 372-383: a new host is taken on when it answers `/name` (or is
      a browser peer, which cannot be asked) and the whitelist, if any,
      names it. */
  predicate TakesOn(m: HostManager, addr: string, reachable: string -> bool) {
    (IsJsHost(addr) || reachable(addr)) && (|m.whitelist| == 0 || addr in m.whitelist)
  }

  /** Lines 355-410: a host announcing itself at clock `time`. The result
      is the new state and the hosts the announcement is forwarded to;
      `reachable` answers whether `/name` responds, `height` answers
      `/block_count`. */
  ghost function AddPeer(m: HostManager, now: u64, addr: string, time: u64, version: string, network: string,
                         reachable: string -> bool, height: string -> Option<u32>): (r: (HostManager, set<string>))
    ensures addr !in r.1
    ensures Sorting.Distinct(m.hosts) ==> Sorting.Distinct(r.0.hosts)
    ensures |m.currPeers| <= RANDOM_GOOD_HOST_COUNT ==> |r.0.currPeers| <= RANDOM_GOOD_HOST_COUNT
    ensures r.0.hosts == m.hosts || r.0.hosts == m.hosts + [addr]
  {
    if RejectsAnnouncement(m, addr, version, network) then (m, {})
    else if addr in m.hosts then
      (m.(hostPingTimes := m.hostPingTimes[addr := now],
          peerClockDeltas := m.peerClockDeltas[addr := Wrap64(now - time)]), {})
    else if !TakesOn(m, addr, reachable) then (m, {})
    else
      var peers := if |m.currPeers| < RANDOM_GOOD_HOST_COUNT
        then m.currPeers + [HeaderChain.New(addr, m.checkpoints, m.bannedHashes, false)]
        else m.currPeers;
      assert Sorting.Distinct(m.hosts) ==> Sorting.Distinct(m.hosts + [addr]) by {
        if Sorting.Distinct(m.hosts) {
          DistinctAppend(m.hosts, [addr]);
        }
      }
      (m.(hosts := m.hosts + [addr], currPeers := peers),
       SampleFreshHosts(m.hostPingTimes, now, height, ADD_PEER_BRANCH_FACTOR) - {addr})
  }

  /** A rejected announcement changes nothing and reaches no one. */
  lemma AddPeerRejected(m: HostManager, now: u64, addr: string, time: u64, version: string, network: string,
                        reachable: string -> bool, height: string -> Option<u32>)
    requires RejectsAnnouncement(m, addr, version, network)
      || (addr !in m.hosts && !TakesOn(m, addr, reachable))
    ensures AddPeer(m, now, addr, time, version, network, reachable, height) == (m, {})
  {
  }

  /** A known host only refreshes its ping time and its clock delta, the
      difference of the two clocks in unsigned 64-bit arithmetic. */
  lemma AddPeerKnown(m: HostManager, now: u64, addr: string, time: u64, version: string, network: string,
                     reachable: string -> bool, height: string -> Option<u32>)
    requires !RejectsAnnouncement(m, addr, version, network) && addr in m.hosts
    ensures var r := AddPeer(m, now, addr, time, version, network, reachable, height);
      && r.1 == {}
      && r.0.hostPingTimes == m.hostPingTimes[addr := now]
      && addr in r.0.peerClockDeltas && (r.0.peerClockDeltas[addr] + time - now) % U64_LIMIT == 0
      && r.0 == m.(hostPingTimes := r.0.hostPingTimes, peerClockDeltas := r.0.peerClockDeltas)
      && forall h :: h != addr && h in m.peerClockDeltas ==> h in r.0.peerClockDeltas && r.0.peerClockDeltas[h] == m.peerClockDeltas[h]
  {
    assert Wrap64(now - time) - (now - time) == Wrap64(now - time) + time - now;
  }

  /** A new host is appended without a ping time; it gets a header chain
      while fewer than nine peers are followed; the announcement goes to
      a fresh sample of ten hosts other than itself. */
  lemma AddPeerAdmitted(m: HostManager, now: u64, addr: string, time: u64, version: string, network: string,
                        reachable: string -> bool, height: string -> Option<u32>)
    requires !RejectsAnnouncement(m, addr, version, network) && addr !in m.hosts && TakesOn(m, addr, reachable)
    ensures var r := AddPeer(m, now, addr, time, version, network, reachable, height);
      && r.0.hosts == m.hosts + [addr]
      && r.0.hostPingTimes == m.hostPingTimes && r.0.peerClockDeltas == m.peerClockDeltas
      && (|m.currPeers| < RANDOM_GOOD_HOST_COUNT ==>
            r.0.currPeers == m.currPeers + [HeaderChain.New(addr, m.checkpoints, m.bannedHashes, false)])
      && (|m.currPeers| >= RANDOM_GOOD_HOST_COUNT ==> r.0.currPeers == m.currPeers)
      && r.0 == m.(hosts := r.0.hosts, currPeers := r.0.currPeers)
      && r.1 == SampleFreshHosts(m.hostPingTimes, now, height, ADD_PEER_BRANCH_FACTOR) - {addr}
  {
  }

  // ---------------------------------------------------------------------
  // refreshHostList

  /** What `/name` gives back: nothing when the host cannot be reached,
      otherwise its `version` field when that is a string. */
  datatype NameReply = Unreachable | Named(version: Option<string>)

  /** One value met while iterating a source's parsed JSON list: a string,
      or any other JSON value. */
  datatype Listed = HostText(host: string) | OtherValue

  /** Lines 439-441: `string(host)` throws on the first value that is not
      a string, which ends that source's loop; the strings met before it
      are already inserted. */
  function TextPrefix(items: seq<Listed>): (r: seq<string>)
    ensures |r| <= |items|
    ensures forall k :: 0 <= k < |r| ==> items[k] == HostText(r[k])
    ensures |r| < |items| ==> items[|r|].OtherValue?
  {
    if |items| == 0 || items[0].OtherValue? then []
    else [items[0].host] + TextPrefix(items[1..])
  }

  /** Lines 433-445: the union over the sources of the strings each lists
      before its first non-string value. `fetch` gives what iterating a
      source's parsed reply yields, or None when the request or the parse
      throws, in which case the source adds nothing. */
  function MergeSources(sources: seq<string>, fetch: string -> Option<seq<Listed>>): (r: set<string>)
    ensures forall x :: x in r <==>
      exists i :: 0 <= i < |sources| && fetch(sources[i]).Some? && x in TextPrefix(fetch(sources[i]).value)
  {
    if |sources| == 0 then {}
    else
      var rest := MergeSources(sources[1..], fetch);
      assert forall i :: 1 <= i < |sources| ==> sources[1..][i - 1] == sources[i];
      match fetch(sources[0])
      case None => rest
      case Some(items) => (set x | x in TextPrefix(items)) + rest
  }

  /** When item `k` is the first non-string value, a source contributes
      exactly the strings listed before it, whatever follows. */
  lemma TextPrefixStopsAtFirstOther(items: seq<Listed>, k: nat)
    requires k < |items| && items[k].OtherValue?
    requires forall j :: 0 <= j < k ==> items[j].HostText?
    ensures |TextPrefix(items)| == k
    ensures forall x :: x in TextPrefix(items) <==> exists j :: 0 <= j < k && items[j] == HostText(x)
  {
    var p := TextPrefix(items);
    forall x | exists j :: 0 <= j < k && items[j] == HostText(x)
      ensures x in p
    {
      var j :| 0 <= j < k && items[j] == HostText(x);
      assert p[j] == x;
    }
  }

  /** Lines 455-481: the tests a listed host passes to be added. */
  predicate Admissible(m: HostManager, host: string, reply: NameReply) {
    && host !in m.hosts
    && host !in m.blacklist
    && reply.Named? && reply.version.Some?
    && !StringLess(reply.version.value, m.minHostVersion)
    && (|m.whitelist| == 0 || host in m.whitelist)
  }

  /** The listed hosts that pass, in the order they are tried. */
  function Admitted(m: HostManager, listed: seq<string>, name: string -> NameReply): (r: seq<string>)
    ensures forall x :: x in r <==> x in listed && Admissible(m, x, name(x))
    ensures Sorting.Distinct(listed) ==> Sorting.Distinct(r)
  {
    if |listed| == 0 then []
    else
      var rest := Admitted(m, listed[1..], name);
      assert forall x :: x in listed <==> x == listed[0] || x in listed[1..];
      if Admissible(m, listed[0], name(listed[0])) then
        assert Sorting.Distinct(listed) ==> listed[0] !in listed[1..];
        [listed[0]] + rest
      else rest
  }

  /** Line 480: each added host's ping time is set to the clock. */
  function PingAll(times: map<string, u64>, added: seq<string>, now: u64): (r: map<string, u64>)
    ensures forall h :: h in r <==> h in times || h in added
    ensures forall h :: h in added ==> r[h] == now
    ensures forall h :: h in times && h !in added ==> r[h] == times[h]
    decreases |added|
  {
    if |added| == 0 then times
    else PingAll(times[added[0] := now], added[1..], now)
  }

  /** Lines 425-489: merge the host sources, then add every listed host
      that passes; their ping times are set, their clock deltas are not.
      The checks run in threads whose appends may interleave in any order;
      the model appends in the order the hosts are listed. */
  ghost function RefreshHostList(m: HostManager, now: u64, fetch: string -> Option<seq<Listed>>,
                                 name: string -> NameReply): (r: HostManager)
    ensures r == m.(hosts := r.hosts, hostPingTimes := r.hostPingTimes)
    ensures |m.hosts| <= |r.hosts| && r.hosts[..|m.hosts|] == m.hosts
    ensures forall h :: h in r.hosts[|m.hosts|..] <==>
      |m.hostSources| > 0 && h in MergeSources(m.hostSources, fetch) && Admissible(m, h, name(h))
    ensures forall h :: h in r.hostPingTimes <==> h in m.hostPingTimes || h in r.hosts[|m.hosts|..]
    ensures forall h :: h in r.hosts[|m.hosts|..] ==> r.hostPingTimes[h] == now
    ensures forall h :: h in m.hostPingTimes && h !in r.hosts[|m.hosts|..] ==> r.hostPingTimes[h] == m.hostPingTimes[h]
    ensures Sorting.Distinct(m.hosts) ==> Sorting.Distinct(r.hosts)
  {
    if |m.hostSources| == 0 then m
    else
      var listed := MergeSources(m.hostSources, fetch);
      if listed == {} then m
      else
        var added := Admitted(m, SortedStrings(listed), name);
        assert (m.hosts + added)[|m.hosts|..] == added;
        assert Sorting.Distinct(m.hosts) ==> Sorting.Distinct(m.hosts + added) by {
          if Sorting.Distinct(m.hosts) {
            DistinctAppend(m.hosts, added);
          }
        }
        m.(hosts := m.hosts + added, hostPingTimes := PingAll(m.hostPingTimes, added, now))
  }

  // ---------------------------------------------------------------------
  // syncHeadersWithPeers and getHosts

  /** The hosts of a list of followed chains, in order. */
  function PeerHosts(peers: seq<HeaderChain.HeaderChain>): (r: seq<string>)
    ensures |r| == |peers|
    ensures forall i :: 0 <= i < |peers| ==> r[i] == peers[i].host
  {
    seq(|peers|, i requires 0 <= i < |peers| => peers[i].host)
  }

  /** A fresh header chain for each host, in order. */
  function Follow(hs: seq<string>, checkpoints: map<nat, Hash>, bannedHashes: map<nat, Hash>, hasBlockStore: bool)
    : (r: seq<HeaderChain.HeaderChain>)
    ensures PeerHosts(r) == hs
    ensures forall i :: 0 <= i < |r| ==> r[i] == HeaderChain.New(hs[i], checkpoints, bannedHashes, hasBlockStore)
  {
    var r := seq(|hs|, i requires 0 <= i < |hs| => HeaderChain.New(hs[i], checkpoints, bannedHashes, hasBlockStore));
    assert PeerHosts(r) == hs;
    r
  }

  /** Lines 491-502: follow a fresh chain for each host of a sample of
      nine, in the set's lexicographic order. */
  ghost function SyncHeadersWithPeers(m: HostManager, now: u64, height: string -> Option<u32>): (r: HostManager)
    ensures r == m.(currPeers := r.currPeers)
    ensures forall h :: h in PeerHosts(r.currPeers) <==>
                          h in SampleFreshHosts(m.hostPingTimes, now, height, RANDOM_GOOD_HOST_COUNT)
    ensures forall i, j :: 0 <= i < j < |r.currPeers| ==> StringLess(r.currPeers[i].host, r.currPeers[j].host)
    ensures forall i :: 0 <= i < |r.currPeers| ==>
      r.currPeers[i] == HeaderChain.New(r.currPeers[i].host, m.checkpoints, m.bannedHashes, m.hasBlockStore)
  {
    var hs := SortedStrings(SampleFreshHosts(m.hostPingTimes, now, height, RANDOM_GOOD_HOST_COUNT));
    m.(currPeers := Follow(hs, m.checkpoints, m.bannedHashes, m.hasBlockStore))
  }

  /** After a sync at most nine chains are followed, one per host. */
  lemma SyncPeerBound(m: HostManager, now: u64, height: string -> Option<u32>)
    ensures |SyncHeadersWithPeers(m, now, height).currPeers| <= RANDOM_GOOD_HOST_COUNT
  {
    var sample := SampleFreshHosts(m.hostPingTimes, now, height, RANDOM_GOOD_HOST_COUNT);
    SampleSize(m.hostPingTimes, now, height, RANDOM_GOOD_HOST_COUNT);
    assert |SyncHeadersWithPeers(m, now, height).currPeers| == |SortedStrings(sample)|;
  }

  /** The hosts that pinged within the freshness window. */
  ghost function FreshHosts(m: HostManager, now: u64): (r: set<string>)
    ensures forall h :: h in r <==> h in m.hostPingTimes && Fresh(now, m.hostPingTimes[h])
  {
    set h | h in m.hostPingTimes.Keys && Fresh(now, m.hostPingTimes[h])
  }

  /** Lines 507-520: the fresh hosts in map order, then this node's own
      address when asked for. */
  ghost function GetHosts(m: HostManager, now: u64, includeSelf: bool): (r: seq<string>)
    ensures |r| == |FreshHosts(m, now)| + (if includeSelf then 1 else 0)
    ensures forall h :: h in r[..|FreshHosts(m, now)|] <==> h in FreshHosts(m, now)
    ensures forall i, j :: 0 <= i < j < |FreshHosts(m, now)| ==> StringLess(r[i], r[j])
    ensures includeSelf ==> r[|r| - 1] == m.address
  {
    var live := SortedStrings(FreshHosts(m, now));
    if includeSelf then
      assert (live + [m.address])[..|live|] == live;
      live + [m.address]
    else live
  }
}
