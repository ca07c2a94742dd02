/** Decoding of an inbound control message into a request, the choice of the
    operation it triggers, and the effect of handling one message on the
    controller's state (HandleMessage). */
module Dispatch {
  import opened Text
  import opened Registry

  /** What url.ParseQuery made of a message body: a malformed encoding, or the
      values of every field, in order of appearance. */
  datatype Message = Malformed | Fields(query: map<string, seq<string>>)

  /** The decoded message: the action name, the flattened IP list and the timeout. */
  datatype Request = Request(action: string, ips: seq<string>, timeout: int)

  /** The operation a request selects. */
  datatype Task =
    | UpdateTask(ips: seq<string>, timeout: int)   // update_ip, for "add" and "update"
    | DelTask(ips: seq<string>)                    // del_ip
    | ClearTask                                    // clear_ip
    | StopExpireTask(timeout: int)                 // stop_expire: pause expiry processing
    | Ignored(action: string)                      // any other action

  /** Go's error value, as HandleMessage returns it. */
  datatype ErrorValue = Nil | Error(message: string)

  /** The values of a field; a missing field has none. */
  function Values(q: map<string, seq<string>>, key: string): seq<string>
  {
    if key in q then q[key] else []
  }

  /** Every value split on commas, the fragments kept in order. */
  function Flatten(values: seq<string>): seq<string>
    decreases |values|
  {
    if values == [] then []
    else Flatten(values[..|values| - 1]) + Split(values[|values| - 1], ',')
  }

  /** The request HandleMessage decodes from the parsed fields. */
  function Decode(q: map<string, seq<string>>): (r: Request)
    ensures Values(q, "action_type") == [] ==> r.action == ""
    ensures Values(q, "ip") == [] ==> r.ips == []
    ensures MinInt <= r.timeout <= MaxInt
    ensures Values(q, "timeout") == [] ==> r.timeout == 0
  {
    var actions := Values(q, "action_type");
    var timeouts := Values(q, "timeout");
    Request(if |actions| > 0 then actions[0] else "",
            Flatten(Values(q, "ip")),
            if |timeouts| > 0 then Atoi(timeouts[0]) else 0)
  }

  /** The decoding step of HandleMessage, with its loop over the `ip` values. */
  method DecodeRequest(q: map<string, seq<string>>) returns (req: Request)
    ensures req == Decode(q)
  {
    var action := "";
    if "action_type" in q && |q["action_type"]| > 0 {
      action := q["action_type"][0];
    }
    var ipaddresses: seq<string> := [];
    if "ip" in q && |q["ip"]| > 0 {
      var values := q["ip"];
      for i := 0 to |values|
        invariant ipaddresses == Flatten(values[..i])
      {
        var items := Split(values[i], ',');
        assert values[..i + 1][..i] == values[..i];
        ipaddresses := ipaddresses + items;
      }
      assert values[..|values|] == values;
    }
    var timeout := 0;
    if "timeout" in q && |q["timeout"]| > 0 {
      timeout := Atoi(q["timeout"][0]);
    }
    req := Request(action, ipaddresses, timeout);
  }

  /** Flattening distributes over concatenation: fragments come out in the order
      of the values they came from. */
  lemma {:induction false} FlattenAppend(a: seq<string>, b: seq<string>)
    ensures Flatten(a + b) == Flatten(a) + Flatten(b)
    decreases |b|
  {
    if b == [] {
      assert a + b == a;
    } else {
      var init := b[..|b| - 1];
      assert (a + b)[..|a + b| - 1] == a + init;
      FlattenAppend(a, init);
    }
  }

  /** No flattened IP contains a comma. */
  lemma {:induction false} FlattenCommaFree(values: seq<string>)
    ensures forall k :: 0 <= k < |Flatten(values)| ==> ',' !in Flatten(values)[k]
    decreases |values|
  {
    if values != [] {
      FlattenCommaFree(values[..|values| - 1]);
      SplitFragmentsFree(values[|values| - 1], ',');
    }
  }

  /** Every value yields at least one fragment, and joining the fragments with
      commas gives back the values joined with commas: nothing is lost, added or
      reordered. */
  lemma {:induction false} FlattenRejoin(values: seq<string>)
    ensures |Flatten(values)| >= |values|
    ensures Join(Flatten(values), ',') == Join(values, ',')
    decreases |values|
  {
    if values != [] {
      var init := values[..|values| - 1];
      var last := values[|values| - 1];
      FlattenRejoin(init);
      JoinSplit(last, ',');
      if init == [] {
        assert Flatten(values) == Split(last, ',');
        assert values == [last];
      } else {
        JoinAppend(Flatten(init), Split(last, ','), ',');
        assert values == init + [last];
        JoinAppend(init, [last], ',');
      }
    }
  }

  /** A decoded request's IPs are comma-free and rejoin to the `ip` values. */
  lemma DecodedIps(q: map<string, seq<string>>)
    ensures forall k :: 0 <= k < |Decode(q).ips| ==> ',' !in Decode(q).ips[k]
    ensures Join(Decode(q).ips, ',') == Join(Values(q, "ip"), ',')
    ensures Values(q, "ip") == [] <==> Decode(q).ips == []
  {
    FlattenCommaFree(Values(q, "ip"));
    FlattenRejoin(Values(q, "ip"));
  }

  /** A decimal timeout decodes to its value; a missing field gives 0. */
  lemma DecodedTimeout(q: map<string, seq<string>>, n: nat)
    requires n <= MaxInt
    ensures |Values(q, "timeout")| > 0 && Values(q, "timeout")[0] == Itoa(n) ==> Decode(q).timeout == n
    ensures Values(q, "timeout") == [] ==> Decode(q).timeout == 0
  {
    AtoiItoa(n);
  }

  /** The operation selected by the action name. */
  function Dispatch(req: Request): (t: Task)
    ensures t.UpdateTask? <==> req.action in {"add", "update"}
    ensures t.UpdateTask? ==> t.ips == req.ips && t.timeout == req.timeout
    ensures t.DelTask? <==> req.action == "del"
    ensures t.DelTask? ==> t.ips == req.ips
    ensures t.ClearTask? <==> req.action == "clear"
    ensures t.StopExpireTask? <==> req.action == "stop"
    ensures t.Ignored? <==> req.action !in {"add", "del", "clear", "update", "stop"}
  {
    if req.action == "add" then UpdateTask(req.ips, req.timeout)
    else if req.action == "del" then DelTask(req.ips)
    else if req.action == "clear" then ClearTask
    else if req.action == "update" then UpdateTask(req.ips, req.timeout)
    else if req.action == "stop" then StopExpireTask(req.timeout)
    else Ignored(req.action)
  }

  /** The effect of handling one message, each operation taken as atomic. */
  function Handle(hs: seq<string>, maxsize: int, s: State, msg: Message, store: AddOracle): (r: (State, Status))
    ensures r.0.index != s.index || r.1 == IndexOutOfRange ==>
              msg.Fields? && Decode(msg.query).action in {"add", "update"}
    ensures msg.Malformed? ==> r == (s, Done)
  {
    match msg
    case Malformed => (s, Done)
    case Fields(q) =>
      match Dispatch(Decode(q))
      case UpdateTask(ips, timeout) => Update(hs, maxsize, s, ips, timeout, store)
      case DelTask(ips) => (Delete(hs, s, ips), Done)
      case ClearTask => (Clear(hs, s), Done)
      case StopExpireTask(_) => (s, Done)
      case Ignored(_) => (s, Done)
  }

  /** "add" and "update" are the same operation with the same arguments. */
  lemma AddIsUpdate(hs: seq<string>, maxsize: int, s: State, q: map<string, seq<string>>, store: AddOracle)
    requires |Values(q, "action_type")| > 0 && Values(q, "action_type")[0] == "add"
    ensures var q' := q["action_type" := ["update"] + Values(q, "action_type")[1..]];
            Handle(hs, maxsize, s, Fields(q), store) == Handle(hs, maxsize, s, Fields(q'), store)
  {
    var q' := q["action_type" := ["update"] + Values(q, "action_type")[1..]];
    assert Values(q', "ip") == Values(q, "ip");
    assert Values(q', "timeout") == Values(q, "timeout");
  }

  /** A malformed message, a missing action, an unknown action and a pause
      request leave the registry, cursor and transcript as they were. */
  lemma HandleLeavesState(hs: seq<string>, maxsize: int, s: State, msg: Message, store: AddOracle)
    requires msg.Fields? ==> Decode(msg.query).action !in {"add", "del", "clear", "update"}
    ensures Handle(hs, maxsize, s, msg, store) == (s, Done)
  {
  }

  /** Each recognised action reaches its own operation. */
  lemma HandleSelects(hs: seq<string>, maxsize: int, s: State, q: map<string, seq<string>>, store: AddOracle)
    ensures var req := Decode(q);
            var r := Handle(hs, maxsize, s, Fields(q), store);
            && (req.action in {"add", "update"} ==> r == Update(hs, maxsize, s, req.ips, req.timeout, store))
            && (req.action == "del" ==> r == (Delete(hs, s, req.ips), Done))
            && (req.action == "clear" ==> r == (Clear(hs, s), Done))
  {
  }
}
