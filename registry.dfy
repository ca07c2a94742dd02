/** The controller's bookkeeping as values: the registry of pending IPs, the shard
    list, the write cursor and the transcript of commands issued to the external
    ipset tool, with the effect of each operation on them as a function. The class
    IPSetClient.IPSet is proved to follow these functions. */
module Registry {
  import opened Text

  /** The ipset tool's answer to an add-member command (`ipset -A shard ip`):
      success, a failure whose message says "set is full", or any other failure. */
  datatype AddOutcome = AddOk | SetFull | AddFailed

  /** A command issued to the external ipset tool. */
  datatype Command =
    | AddMember(shard: string, ip: string, reply: AddOutcome)  // ipset -A shard ip, with its answer
    | RemoveMember(shard: string, ip: string)                   // ipset -D shard ip
    | Flush(shard: string)                                      // ipset -F shard

  /** The external store's answer to adding `ip` to `shard`, given every command
      issued before it. Any deterministic store is such a function. */
  type AddOracle = (seq<Command>, string, string) -> AddOutcome

  /** The mutable part of the controller: `iplist` maps each registered IP to the
      timeout its expiry was armed with, `index` is the write cursor into the shard
      list, and `log` is the transcript of issued ipset commands. */
  datatype State = State(iplist: map<string, int>, index: int, log: seq<Command>)

  /** How an update batch ended: normally (after the last IP or at an early
      return), or by indexing the shard list at a cursor outside it (a Go panic). */
  datatype Status = Done | IndexOutOfRange

  /** IPs shorter than this end an update batch. */
  const MinIpLength: nat := 7

  // ---------------------------------------------------------------------------
  // Shard list

  /** The shard names setup_iphash builds: the base name followed by 0, 1, …,
      maxsize - 1 in decimal. */
  function ShardNames(hashName: string, maxsize: int): (names: seq<string>)
    ensures |names| == (if maxsize > 0 then maxsize else 0)
    ensures forall i :: 0 <= i < |names| ==> hashName <= names[i]
  {
    seq(if maxsize > 0 then maxsize else 0, i requires 0 <= i => hashName + Itoa(i))
  }

  /** The shard list has one name per index below maxsize, and that name is
      the base name followed by the index. */
  lemma ShardNamesShape(hashName: string, maxsize: int)
    ensures |ShardNames(hashName, maxsize)| == (if maxsize > 0 then maxsize else 0)
    ensures forall i :: 0 <= i < |ShardNames(hashName, maxsize)| ==>
              ShardNames(hashName, maxsize)[i] == hashName + Itoa(i)
  {
  }

  /** No two shards share a name. */
  lemma ShardNamesDistinct(hashName: string, maxsize: int)
    ensures forall i, j :: 0 <= i < j < |ShardNames(hashName, maxsize)| ==>
              ShardNames(hashName, maxsize)[i] != ShardNames(hashName, maxsize)[j]
  {
    var names := ShardNames(hashName, maxsize);
    forall i, j | 0 <= i < j < |names| ensures names[i] != names[j] {
      if names[i] == names[j] {
        assert (hashName + Itoa(i))[|hashName|..] == Itoa(i);
        assert (hashName + Itoa(j))[|hashName|..] == Itoa(j);
        ItoaInjective(i, j);
      }
    }
  }

  /** Extending the shard list by one index appends one name. */
  lemma ShardNamesExtend(hashName: string, k: nat)
    ensures ShardNames(hashName, k + 1) == ShardNames(hashName, k) + [hashName + Itoa(k)]
  {
    assert ShardNames(hashName, k + 1)[..k] == ShardNames(hashName, k);
  }

  // ---------------------------------------------------------------------------
  // Write cursor

  /** The cursor step of update_ip on a full shard: advance while below maxsize,
      otherwise wrap to 0. The guard lets the cursor reach maxsize itself. */
  function NextIndex(index: int, maxsize: int): (next: int)
    ensures next == 0 || next == index + 1
    ensures next == 0 || next <= maxsize
  {
    if index < maxsize then index + 1 else 0
  }

  /** Where the cursor can be: 0, or anywhere from 0 up to and including maxsize. */
  predicate CursorInRange(index: int, maxsize: int)
  {
    0 <= index && (index == 0 || index <= maxsize)
  }

  /** The cursor step keeps the cursor in range, and it can land one past the
      last shard index. */
  lemma NextIndexBounds(index: int, maxsize: int)
    requires CursorInRange(index, maxsize)
    ensures CursorInRange(NextIndex(index, maxsize), maxsize)
    ensures maxsize > 0 && index == maxsize - 1 ==> NextIndex(index, maxsize) == maxsize
    ensures NextIndex(index, maxsize) == 0 <==> index >= maxsize
  {
  }

  // ---------------------------------------------------------------------------
  // update_ip

  /** An IP that ends the batch: too short, or already registered. */
  predicate Rejected(s: State, ip: string)
  {
    |ip| < MinIpLength || ip in s.iplist
  }

  /** The state after registering an accepted IP and attempting to add it to the
      shard at the cursor. On "set is full" the cursor advances and the retry
      finds the IP registered and returns, so the IP stays registered without
      being in any shard; on any other failure it is unregistered again. */
  function Step(hs: seq<string>, maxsize: int, s: State, ip: string, timeout: int, store: AddOracle): (r: State)
    requires 0 <= s.index < |hs|
    ensures ip in r.iplist <==> store(s.log, hs[s.index], ip) != AddFailed
    ensures forall k :: k != ip ==> (k in r.iplist <==> k in s.iplist)
    ensures |r.log| == |s.log| + 1 && r.log[..|s.log|] == s.log
  {
    var shard := hs[s.index];
    var reply := store(s.log, shard, ip);
    var registered := s.iplist[ip := timeout];
    var log := s.log + [AddMember(shard, ip, reply)];
    match reply
    case AddOk => State(registered, s.index, log)
    case SetFull => State(registered, NextIndex(s.index, maxsize), log)
    case AddFailed => State(registered - {ip}, s.index, log)
  }

  /** update_ip over a batch: the first rejected IP ends the batch, and a cursor
      outside the shard list stops it with the IP already registered. */
  function Update(hs: seq<string>, maxsize: int, s: State, ips: seq<string>, timeout: int, store: AddOracle): (r: (State, Status))
    ensures s.iplist.Keys <= r.0.iplist.Keys
    ensures r.1 == IndexOutOfRange ==> !(0 <= r.0.index < |hs|)
    decreases |ips|
  {
    if ips == [] then (s, Done)
    else if Rejected(s, ips[0]) then (s, Done)
    else if !(0 <= s.index < |hs|) then (s.(iplist := s.iplist[ips[0] := timeout]), IndexOutOfRange)
    else Update(hs, maxsize, Step(hs, maxsize, s, ips[0], timeout, store), ips[1..], timeout, store)
  }

  /** Per-IP outcome of an accepted IP: registered with the given timeout on
      success and on "set is full" (the cursor then steps), back to its previous
      state on any other failure, one add-member command against the shard at the
      cursor, and every other entry untouched. */
  lemma StepOutcome(hs: seq<string>, maxsize: int, s: State, ip: string, timeout: int, store: AddOracle)
    requires 0 <= s.index < |hs|
    requires ip !in s.iplist
    ensures var r := Step(hs, maxsize, s, ip, timeout, store);
            var reply := store(s.log, hs[s.index], ip);
            && (reply == AddOk ==> r.iplist == s.iplist[ip := timeout] && r.index == s.index)
            && (reply == SetFull ==> r.iplist == s.iplist[ip := timeout] && r.index == NextIndex(s.index, maxsize))
            && (reply == AddFailed ==> r.iplist == s.iplist && r.index == s.index)
            && r.log == s.log + [AddMember(hs[s.index], ip, reply)]
  {
    var reply := store(s.log, hs[s.index], ip);
    if reply == AddFailed {
      assert s.iplist[ip := timeout] - {ip} == s.iplist;
    }
  }

  /** The retry after "set is full" is a no-op: the IP is already registered. */
  lemma RetryIsNoop(hs: seq<string>, maxsize: int, s: State, ip: string, timeout: int, store: AddOracle)
    requires ip in s.iplist
    ensures Update(hs, maxsize, s, [ip], timeout, store) == (s, Done)
  {
  }

  /** A rejected IP ends the batch: whatever follows it is never processed. */
  lemma {:induction false} UpdateStopsAt(hs: seq<string>, maxsize: int, s: State, pre: seq<string>,
                                         x: string, post: seq<string>, timeout: int, store: AddOracle)
    requires Update(hs, maxsize, s, pre, timeout, store).1 == Done
    requires Rejected(Update(hs, maxsize, s, pre, timeout, store).0, x)
    ensures Update(hs, maxsize, s, pre + [x] + post, timeout, store) == Update(hs, maxsize, s, pre, timeout, store)
    decreases |pre|
  {
    if pre == [] {
      assert pre + [x] + post == [x] + post;
    } else if !Rejected(s, pre[0]) && 0 <= s.index < |hs| {
      assert (pre + [x] + post)[1..] == pre[1..] + [x] + post;
      UpdateStopsAt(hs, maxsize, Step(hs, maxsize, s, pre[0], timeout, store), pre[1..], x, post, timeout, store);
    }
  }

  /** Entries registered before the batch keep their timeouts (a duplicate add
      does not re-arm), and every new entry is an IP of the batch that is long
      enough, with the batch's timeout. */
  lemma {:induction false} UpdateRegistry(hs: seq<string>, maxsize: int, s: State, ips: seq<string>, timeout: int, store: AddOracle)
    ensures var r := Update(hs, maxsize, s, ips, timeout, store).0;
            && (forall k :: k in s.iplist ==> k in r.iplist && r.iplist[k] == s.iplist[k])
            && (forall k :: k in r.iplist && k !in s.iplist ==>
                  k in ips && |k| >= MinIpLength && r.iplist[k] == timeout)
    decreases |ips|
  {
    if ips != [] && !Rejected(s, ips[0]) && 0 <= s.index < |hs| {
      var s1 := Step(hs, maxsize, s, ips[0], timeout, store);
      StepOutcome(hs, maxsize, s, ips[0], timeout, store);
      UpdateRegistry(hs, maxsize, s1, ips[1..], timeout, store);
      assert forall k :: k in ips[1..] ==> k in ips;
    }
  }

  /** The cursor never leaves [0, maxsize] (or 0) during a batch. */
  lemma {:induction false} UpdateCursorBound(hs: seq<string>, maxsize: int, s: State, ips: seq<string>, timeout: int, store: AddOracle)
    requires CursorInRange(s.index, maxsize)
    ensures CursorInRange(Update(hs, maxsize, s, ips, timeout, store).0.index, maxsize)
    decreases |ips|
  {
    if ips != [] && !Rejected(s, ips[0]) && 0 <= s.index < |hs| {
      NextIndexBounds(s.index, maxsize);
      UpdateCursorBound(hs, maxsize, Step(hs, maxsize, s, ips[0], timeout, store), ips[1..], timeout, store);
    }
  }

  /** A batch only appends add-member commands, each against a shard of the list,
      for an IP of the batch, carrying the store's answer. */
  lemma {:induction false} UpdateLog(hs: seq<string>, maxsize: int, s: State, ips: seq<string>, timeout: int, store: AddOracle)
    ensures var r := Update(hs, maxsize, s, ips, timeout, store).0;
            && |s.log| <= |r.log| && r.log[..|s.log|] == s.log
            && (forall c :: c in r.log[|s.log|..] ==>
                  c.AddMember? && c.shard in hs && c.ip in ips)
    decreases |ips|
  {
    if ips != [] && !Rejected(s, ips[0]) && 0 <= s.index < |hs| {
      var s1 := Step(hs, maxsize, s, ips[0], timeout, store);
      UpdateLog(hs, maxsize, s1, ips[1..], timeout, store);
      var r := Update(hs, maxsize, s1, ips[1..], timeout, store).0;
      assert r.log[|s.log|..] == [s1.log[|s.log|]] + r.log[|s1.log|..];
      assert forall k :: k in ips[1..] ==> k in ips;
    }
  }

  /** A "set is full" answer on the last shard moves the cursor to maxsize, one
      past the last shard, and the next accepted IP of the batch then indexes
      the shard list out of range, after being registered. */
  lemma FullLastShardOverruns(hashName: string, maxsize: int, s: State, x: string, y: string, timeout: int, store: AddOracle)
    requires maxsize > 0 && s.index == maxsize - 1
    requires store(s.log, ShardNames(hashName, maxsize)[maxsize - 1], x) == SetFull
    requires !Rejected(s, x) && !Rejected(s, y) && x != y
    ensures var r := Update(ShardNames(hashName, maxsize), maxsize, s, [x, y], timeout, store);
            && r.1 == IndexOutOfRange
            && r.0.index == maxsize
            && x in r.0.iplist && y in r.0.iplist
  {
    var hs := ShardNames(hashName, maxsize);
    var s1 := Step(hs, maxsize, s, x, timeout, store);
    assert s1.index == maxsize;
    assert [x, y][1..] == [y];
  }

  // ---------------------------------------------------------------------------
  // del_ip and clear_ip

  /** The remove-member commands del_ip issues for one IP, one per shard in order. */
  function RemoveEach(hs: seq<string>, ip: string): seq<Command>
  {
    seq(|hs|, k requires 0 <= k < |hs| => RemoveMember(hs[k], ip))
  }

  /** The flush commands clear_ip issues, one per shard in order. */
  function FlushEach(hs: seq<string>): seq<Command>
  {
    seq(|hs|, k requires 0 <= k < |hs| => Flush(hs[k]))
  }

  /** del_ip over a batch: for each IP in turn, a remove-member command against
      every shard, then the IP's entry (if any) leaves the registry. */
  function Delete(hs: seq<string>, s: State, ips: seq<string>): (r: State)
    ensures r.index == s.index && r.iplist.Keys <= s.iplist.Keys
    ensures |s.log| <= |r.log| && r.log[..|s.log|] == s.log
    decreases |ips|
  {
    if ips == [] then s
    else
      var prev := Delete(hs, s, ips[..|ips| - 1]);
      var ip := ips[|ips| - 1];
      State(prev.iplist - {ip}, prev.index, prev.log + RemoveEach(hs, ip))
  }

  /** clear_ip: a flush of every shard, and an empty registry. */
  function Clear(hs: seq<string>, s: State): (r: State)
    ensures |r.iplist| == 0 && r.index == s.index
    ensures |r.log| == |s.log| + |hs| && r.log[..|s.log|] == s.log
  {
    State(map[], s.index, s.log + FlushEach(hs))
  }

  /** After del_ip no IP of the batch is registered, every other entry is as it
      was, and the cursor has not moved. */
  lemma {:induction false} DeleteRegistry(hs: seq<string>, s: State, ips: seq<string>)
    ensures Delete(hs, s, ips).iplist == s.iplist - (set ip | ip in ips)
    ensures Delete(hs, s, ips).index == s.index
    decreases |ips|
  {
    if ips != [] {
      var init := ips[..|ips| - 1];
      DeleteRegistry(hs, s, init);
      assert (set ip | ip in ips) == (set ip | ip in init) + {ips[|ips| - 1]} by {
        assert ips == init + [ips[|ips| - 1]];
      }
    }
  }

  /** Deleting IPs none of which is registered leaves the registry unchanged. */
  lemma DeleteUnregistered(hs: seq<string>, s: State, ips: seq<string>)
    requires forall ip :: ip in ips ==> ip !in s.iplist
    ensures Delete(hs, s, ips).iplist == s.iplist
  {
    DeleteRegistry(hs, s, ips);
  }

  /** del_ip broadcasts: it appends exactly one remove-member command per
      (IP, shard) pair, and each command names a shard of the list and an IP of
      the batch; every shard receives a removal of every IP of the batch. */
  lemma {:induction false} DeleteBroadcast(hs: seq<string>, s: State, ips: seq<string>)
    ensures var r := Delete(hs, s, ips);
            && |r.log| == |s.log| + |ips| * |hs| && r.log[..|s.log|] == s.log
            && (forall c :: c in r.log[|s.log|..] <==> c.RemoveMember? && c.shard in hs && c.ip in ips)
    decreases |ips|
  {
    if ips != [] {
      var init := ips[..|ips| - 1];
      var ip := ips[|ips| - 1];
      DeleteBroadcast(hs, s, init);
      var prev := Delete(hs, s, init);
      var r := Delete(hs, s, ips);
      assert r.log == prev.log + RemoveEach(hs, ip);
      assert |ips| * |hs| == |init| * |hs| + |hs|;
      assert r.log[..|s.log|] == s.log by {
        assert r.log[..|prev.log|] == prev.log;
      }
      assert r.log[|s.log|..] == prev.log[|s.log|..] + RemoveEach(hs, ip);
      assert ips == init + [ip];
      forall c ensures c in RemoveEach(hs, ip) <==> c.RemoveMember? && c.shard in hs && c.ip == ip {
        if c.RemoveMember? && c.shard in hs && c.ip == ip {
          var k :| 0 <= k < |hs| && hs[k] == c.shard;
          assert RemoveEach(hs, ip)[k] == c;
        }
      }
    }
  }

  /** clear_ip empties the registry and flushes every shard exactly once, in order. */
  lemma ClearAll(hs: seq<string>, s: State)
    ensures Clear(hs, s).iplist == map[]
    ensures Clear(hs, s).log[..|s.log|] == s.log
    ensures Clear(hs, s).log[|s.log|..] == FlushEach(hs)
    ensures forall h :: h in hs <==> Flush(h) in Clear(hs, s).log[|s.log|..]
  {
    var tail := Clear(hs, s).log[|s.log|..];
    assert tail == FlushEach(hs);
    forall h | h in hs ensures Flush(h) in tail {
      var k :| 0 <= k < |hs| && hs[k] == h;
      assert tail[k] == Flush(h);
    }
  }

  /** A fired expiry is del_ip of that one IP: it removes the IP from every shard
      and from the registry, and for an IP that is no longer registered (cleared
      or deleted already) it changes nothing but the transcript. */
  lemma ExpiryIsSingleDelete(hs: seq<string>, s: State, ip: string)
    ensures Delete(hs, s, [ip]).iplist == s.iplist - {ip}
    ensures ip !in s.iplist ==> Delete(hs, s, [ip]).iplist == s.iplist
    ensures Delete(hs, s, [ip]).log == s.log + RemoveEach(hs, ip)
  {
    assert [ip][..0] == [];
  }

  /** An unregistered IP (for instance one removed by clear_ip) added with a
      successful add-member command is registered with the new timeout, and a
      fired expiry for it (del_ip of that IP) then removes that entry. Which timers
      are pending, and so whether an older expiry can still fire, is not part of
      the state. */
  lemma ReAddedThenExpired(hs: seq<string>, maxsize: int, s: State, ip: string, timeout: int, store: AddOracle)
    requires |ip| >= MinIpLength && ip !in s.iplist && 0 <= s.index < |hs|
    requires store(s.log, hs[s.index], ip) == AddOk
    ensures var added := Update(hs, maxsize, s, [ip], timeout, store).0;
            && ip in added.iplist && added.iplist[ip] == timeout
            && ip !in Delete(hs, added, [ip]).iplist
  {
    assert [ip][1..] == [];
    StepOutcome(hs, maxsize, s, ip, timeout, store);
    ExpiryIsSingleDelete(hs, Update(hs, maxsize, s, [ip], timeout, store).0, ip);
  }
}
