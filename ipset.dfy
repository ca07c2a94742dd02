/** The controller object: the shard list, the write cursor and the registry of
    pending IPs, updated in place by its methods. Every ipset command a method
    issues is appended to `log`; the answer to an add-member command comes from
    the `store` oracle. Each method is proved to follow the corresponding function
    of module Registry (or Dispatch.Handle), whose properties are proved there. */
module IPSetClient {
  import opened Text
  import opened Registry
  import opened Dispatch

  class IPSet {
    /** Base name of the shards (HashName) and the number of shards (maxsize). */
    const hashName: string
    const maxsize: int
    /** HashList: the shard names, in order. */
    var hashList: seq<string>
    /** The write cursor into hashList. */
    var index: int
    /** Each registered IP with the timeout its expiry was armed with. */
    var iplist: map<string, int>
    /** The ipset commands issued so far. */
    var log: seq<Command>

    /** The mutable state as a Registry.State value. */
    function St(): State
      reads this
    {
      State(iplist, index, log)
    }

    /** The cursor stays in the range update_ip's step keeps it in. */
    predicate Valid()
      reads this
    {
      CursorInRange(index, maxsize)
    }

    constructor (hashName: string, maxsize: int)
      ensures this.hashName == hashName && this.maxsize == maxsize
      ensures hashList == [] && index == 0 && iplist == map[] && log == []
      ensures Valid()
    {
      this.hashName := hashName;
      this.maxsize := maxsize;
      hashList := [];
      index := 0;
      iplist := map[];
      log := [];
    }

    /** setup_iphash: truncate the shard list, append one name per index below
        maxsize, stepping the cursor itself, then reset the cursor. The result does
        not depend on the previous list, so running it again gives the same list. */
    method SetupIphash()
      requires Valid()
      modifies this`hashList, this`index
      ensures hashList == ShardNames(hashName, maxsize)
      ensures index == 0
      ensures Valid()
    {
      hashList := [];
      index := 0;
      while index < maxsize
        invariant 0 <= index <= (if maxsize > 0 then maxsize else 0)
        invariant hashList == ShardNames(hashName, index)
      {
        var name := hashName + Itoa(index);
        ShardNamesExtend(hashName, index);
        hashList := hashList + [name];
        index := index + 1;
      }
      index := 0;
    }

    /** update_ip: for each IP, stop the whole batch if it is too short or already
        registered; otherwise register it and add it to the shard at the cursor.
        On "set is full" step the cursor and retry the IP; on any other failure
        unregister it. A cursor outside the shard list ends the run with
        IndexOutOfRange. */
    method UpdateIp(ips: seq<string>, timeout: int, store: AddOracle) returns (status: Status)
      requires Valid()
      modifies this`iplist, this`index, this`log
      ensures Valid()
      ensures (St(), status) == Update(hashList, maxsize, old(St()), ips, timeout, store)
      decreases |ips|, if |ips| == 1 && ips[0] in iplist then 0 else 1
    {
      for i := 0 to |ips|
        invariant Valid()
        invariant Update(hashList, maxsize, St(), ips[i..], timeout, store)
               == Update(hashList, maxsize, old(St()), ips, timeout, store)
        invariant i == 0 ==> St() == old(St())
      {
        var ip := ips[i];
        assert ips[i..][1..] == ips[i + 1..];
        if |ip| < MinIpLength {
          return Done;
        }
        var ok := ip in iplist;
        if ok {
          return Done;
        }
        ghost var before := St();
        iplist := iplist[ip := timeout];
        if !(0 <= index < |hashList|) {
          return IndexOutOfRange;
        }
        var shard := hashList[index];
        var reply := store(log, shard, ip);
        log := log + [AddMember(shard, ip, reply)];
        if reply != AddOk {
          if reply == SetFull {
            if index < maxsize {
              index := index + 1;
            } else {
              index := 0;
            }
            // The retry finds the IP registered and returns at once.
            var retry := UpdateIp([ip], timeout, store);
          } else {
            iplist := iplist - {ip};
          }
        }
        assert St() == Step(hashList, maxsize, before, ip, timeout, store);
      }
      status := Done;
    }

    /** del_ip: for each IP, a remove-member command against every shard, then
        the IP leaves the registry if it was there. */
    method DelIp(ips: seq<string>)
      requires Valid()
      modifies this`iplist, this`log
      ensures Valid()
      ensures St() == Delete(hashList, old(St()), ips)
    {
      for i := 0 to |ips|
        invariant St() == Delete(hashList, old(St()), ips[..i])
      {
        var ip := ips[i];
        ghost var before := St();
        for j := 0 to |hashList|
          invariant iplist == before.iplist
          invariant log == before.log + RemoveEach(hashList[..j], ip)
        {
          assert RemoveEach(hashList[..j + 1], ip) == RemoveEach(hashList[..j], ip) + [RemoveMember(hashList[j], ip)];
          log := log + [RemoveMember(hashList[j], ip)];
        }
        assert hashList[..|hashList|] == hashList;
        if ip in iplist {
          iplist := iplist - {ip};
        } else {
          assert iplist - {ip} == iplist;
        }
        assert ips[..i + 1][..i] == ips[..i];
      }
      assert ips[..|ips|] == ips;
    }

    /** clear_ip: a flush of every shard, then every registry entry is deleted. */
    method ClearIp()
      requires Valid()
      modifies this`iplist, this`log
      ensures Valid()
      ensures St() == Clear(hashList, old(St()))
    {
      for j := 0 to |hashList|
        invariant iplist == old(iplist)
        invariant log == old(log) + FlushEach(hashList[..j])
      {
        assert FlushEach(hashList[..j + 1]) == FlushEach(hashList[..j]) + [Flush(hashList[j])];
        log := log + [Flush(hashList[j])];
      }
      assert hashList[..|hashList|] == hashList;
      while iplist != map[]
        invariant log == old(log) + FlushEach(hashList)
        decreases |iplist.Keys|
      {
        var k :| k in iplist;
        assert iplist.Keys == (iplist - {k}).Keys + {k};
        iplist := iplist - {k};
      }
    }

    /** A fired expiry for `ip`, as the expiry loop handles it: del_ip of that IP. */
    method Expire(ip: string)
      requires Valid()
      modifies this`iplist, this`log
      ensures Valid()
      ensures St() == Delete(hashList, old(St()), [ip])
    {
      DelIp([ip]);
    }

    /** HandleMessage: drop a malformed message, otherwise decode it and run the
        operation its action names; it returns nil on every path. The status is
        that of the update operation, IndexOutOfRange when it overran the shard list. */
    method HandleMessage(msg: Message, store: AddOracle) returns (err: ErrorValue, status: Status)
      requires Valid()
      modifies this`iplist, this`index, this`log
      ensures Valid()
      ensures err == Nil
      ensures (St(), status) == Handle(hashList, maxsize, old(St()), msg, store)
    {
      status := Done;
      if msg.Malformed? {
        return Nil, Done;
      }
      var req := DecodeRequest(msg.query);
      var action := req.action;
      if action == "add" {
        status := UpdateIp(req.ips, req.timeout, store);
      } else if action == "del" {
        DelIp(req.ips);
      } else if action == "clear" {
        ClearIp();
      } else if action == "update" {
        status := UpdateIp(req.ips, req.timeout, store);
      } else if action == "stop" {
        // stop_expire pauses expiry processing; timing is not part of this model.
      }
      err := Nil;
    }
  }
}
