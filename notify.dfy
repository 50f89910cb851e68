/**
  `send_call_method` and `send_msg`: dispatching a notification by method
  name to every configured URL. The sending object is modelled by the set of
  its method names, and a run of `send_msg` by the trace of the sending
  calls it makes.
 */
module Notify {
  import opened Wrappers
  import opened Dicts

  /** The sending methods `SendApi` defines. */
  const SendApiMethods: set<string> :=
    {"send_webhook", "send_wecom", "send_dingtalk", "send_feishu", "send_pushme"}

  /** `SendType.success` and `SendType.fail`. */
  const SendSuccess := 0
  const SendFail := 1

  /** One call `method(url, msg)` on the sending object. */
  datatype Call = Call(name: string, url: string, msg: string)

  /** `send_call_method`: the call is made exactly when the object has a
      method of that name, and it is that method applied to the arguments;
      otherwise nothing is called and the result is `None`. */
  function SendCallMethod(api: set<string>, name: string, url: string, msg: string): (r: Option<Call>)
    ensures r.Some? <==> name in api
    ensures r.Some? ==> r.value.name == name && r.value.url == url && r.value.msg == msg
  {
    if name in api then Some(Call(name, url, msg)) else None
  }

  /** The configuration gate of `send_msg`. */
  predicate ShouldSend(isSendMsg: bool, isSendSuccessMsg: bool, isSendFailMsg: bool, sendType: int) {
    isSendMsg &&
    ((sendType == SendSuccess && isSendSuccessMsg) || (sendType == SendFail && isSendFailMsg))
  }

  /** The calls made for one channel: one per URL, in list order, when the
      channel names a method of the object. */
  function CallsFor(api: set<string>, key: string, urls: seq<string>, msg: string): seq<Call> {
    if urls == [] then []
    else
      var n := |urls| - 1;
      CallsFor(api, key, urls[..n], msg) +
        (match SendCallMethod(api, key, urls[n], msg) case None => [] case Some(c) => [c])
  }

  /** A channel the object lacks makes no calls; one it has makes one call
      per URL, in list order, each with the message. */
  lemma {:induction false} CallsForSpec(api: set<string>, key: string, urls: seq<string>, msg: string)
    ensures key !in api ==> CallsFor(api, key, urls, msg) == []
    ensures key in api ==> |CallsFor(api, key, urls, msg)| == |urls|
    ensures key in api ==> forall j :: 0 <= j < |urls| ==> CallsFor(api, key, urls, msg)[j] == Call(key, urls[j], msg)
  {
    if urls != [] {
      var n := |urls| - 1;
      CallsForSpec(api, key, urls[..n], msg);
    }
  }

  /** The calls made for the channels `keys`, in order. */
  function PlannedCalls(api: set<string>, keys: seq<string>, sendInfo: Dict<seq<string>>, msg: string): seq<Call>
    requires forall k :: k in keys ==> sendInfo.HasKey(k)
  {
    if keys == [] then []
    else
      var n := |keys| - 1;
      PlannedCalls(api, keys[..n], sendInfo, msg) + CallsFor(api, keys[n], sendInfo.Get(keys[n]), msg)
  }

  /** One more URL adds at most its own call. */
  lemma CallsForSnoc(api: set<string>, key: string, urls: seq<string>, j: int, msg: string)
    requires 0 <= j < |urls|
    ensures CallsFor(api, key, urls[..j + 1], msg) == CallsFor(api, key, urls[..j], msg) +
      (match SendCallMethod(api, key, urls[j], msg) case None => [] case Some(c) => [c])
  {
    assert urls[..j + 1][..j] == urls[..j];
  }

  /** One more channel adds its own calls. */
  lemma PlannedCallsSnoc(api: set<string>, keys: seq<string>, sendInfo: Dict<seq<string>>, i: int, msg: string)
    requires forall k :: k in keys ==> sendInfo.HasKey(k)
    requires 0 <= i < |keys|
    ensures PlannedCalls(api, keys[..i + 1], sendInfo, msg) ==
      PlannedCalls(api, keys[..i], sendInfo, msg) + CallsFor(api, keys[i], sendInfo.Get(keys[i]), msg)
  {
    assert keys[..i + 1][..i] == keys[..i];
  }

  /** A call is made exactly when its method is a configured channel the
      object has, its URL is listed for that channel and its text is the
      message. */
  lemma {:induction false} PlannedCallsMembers(api: set<string>, keys: seq<string>, sendInfo: Dict<seq<string>>, msg: string, c: Call)
    requires forall k :: k in keys ==> sendInfo.HasKey(k)
    ensures c in PlannedCalls(api, keys, sendInfo, msg) <==>
      c.name in api && c.name in keys && c.url in sendInfo.Get(c.name) && c.msg == msg
  {
    if keys != [] {
      var n := |keys| - 1;
      PlannedCallsMembers(api, keys[..n], sendInfo, msg, c);
      assert keys == keys[..n] + [keys[n]];
      var urls := sendInfo.Get(keys[n]);
      var r := CallsFor(api, keys[n], urls, msg);
      CallsForSpec(api, keys[n], urls, msg);
      if c.name == keys[n] && c.name in api && c.url in urls && c.msg == msg {
        var j :| 0 <= j < |urls| && urls[j] == c.url;
        assert r[j] == c;
      }
    }
  }

  /** The calls to one method, in trace order. */
  function CallsTo(trace: seq<Call>, name: string): seq<Call> {
    if trace == [] then []
    else
      var n := |trace| - 1;
      CallsTo(trace[..n], name) + (if trace[n].name == name then [trace[n]] else [])
  }

  /** The calls picked out are exactly the trace's calls to that method. */
  lemma {:induction false} CallsToMembers(trace: seq<Call>, name: string, c: Call)
    ensures c in CallsTo(trace, name) <==> c in trace && c.name == name
  {
    if trace != [] {
      var n := |trace| - 1;
      CallsToMembers(trace[..n], name, c);
      assert trace == trace[..n] + [trace[n]];
    }
  }

  lemma {:induction false} CallsToAppend(a: seq<Call>, b: seq<Call>, name: string)
    ensures CallsTo(a + b, name) == CallsTo(a, name) + CallsTo(b, name)
  {
    if b != [] {
      var n := |b| - 1;
      assert (a + b)[..|a| + n] == a + b[..n];
      var last := if b[n].name == name then [b[n]] else [];
      CallsToAppend(a, b[..n], name);
      assert CallsTo(a + b, name) == CallsTo(a + b[..n], name) + last;
      assert CallsTo(b, name) == CallsTo(b[..n], name) + last;
    } else {
      assert a + b == a;
    }
  }

  /** Each channel's calls, picked out of the whole trace, are one call per
      listed URL in list order (channels are distinct dict keys). */
  lemma {:induction false} PlannedCallsTo(api: set<string>, keys: seq<string>, sendInfo: Dict<seq<string>>, msg: string, name: string)
    requires forall k :: k in keys ==> sendInfo.HasKey(k)
    requires NoDuplicates(keys)
    ensures CallsTo(PlannedCalls(api, keys, sendInfo, msg), name) ==
      if name in keys then CallsFor(api, name, sendInfo.Get(name), msg) else []
  {
    if keys != [] {
      var n := |keys| - 1;
      var init := keys[..n];
      assert keys == init + [keys[n]];
      PlannedCallsTo(api, init, sendInfo, msg, name);
      var tail := CallsFor(api, keys[n], sendInfo.Get(keys[n]), msg);
      CallsToAppend(PlannedCalls(api, init, sendInfo, msg), tail, name);
      CallsToOfCallsFor(api, keys[n], sendInfo.Get(keys[n]), msg, name);
      if keys[n] == name {
        assert name !in init;
      }
    }
  }

  /** Picking one method's calls out of a channel's calls keeps them all when
      the channel is that method, and none otherwise. */
  lemma {:induction false} CallsToOfCallsFor(api: set<string>, key: string, urls: seq<string>, msg: string, name: string)
    ensures CallsTo(CallsFor(api, key, urls, msg), name) ==
      if key == name then CallsFor(api, key, urls, msg) else []
  {
    if urls != [] {
      var n := |urls| - 1;
      var init := CallsFor(api, key, urls[..n], msg);
      var last := match SendCallMethod(api, key, urls[n], msg) case None => [] case Some(c) => [c];
      CallsToOfCallsFor(api, key, urls[..n], msg, name);
      CallsToAppend(init, last, name);
      if last != [] {
        assert CallsTo(last, name) == CallsTo([], name) + (if last[0].name == name then last else []);
      }
    }
  }

  /** With the real `SendApi`, a `send_info` channel that names none of its
      sending methods gets no calls at all. */
  lemma UnknownChannelGetsNoCalls(keys: seq<string>, sendInfo: Dict<seq<string>>, msg: string, name: string)
    requires forall k :: k in keys ==> sendInfo.HasKey(k)
    requires NoDuplicates(keys)
    requires name !in SendApiMethods
    ensures CallsTo(PlannedCalls(SendApiMethods, keys, sendInfo, msg), name) == []
  {
    PlannedCallsTo(SendApiMethods, keys, sendInfo, msg, name);
    if name in keys {
      CallsForSpec(SendApiMethods, name, sendInfo.Get(name), msg);
    }
  }

  /** Whether a sending call raises (a network error in `session.post`, or a
      response without a `Content-Type` header) depends on when it is made,
      not on its method, URL and message. So failures are given by position:
      `fails` holds the positions, counted from 0 in the order the calls are
      made, of the calls that would raise. None of the calls of `trace` raises. */
  predicate NoneFails(trace: seq<Call>, fails: set<nat>) {
    forall m :: 0 <= m < |trace| ==> m !in fails
  }

  /** How many of `n` planned calls are made, from position `m` on: up to
      and including the first raising position, or all of them. */
  function Cut(n: nat, fails: set<nat>, m: nat): (r: nat)
    requires m <= n
    ensures m <= r <= n
    decreases n - m
  {
    if m == n then n
    else if m in fails then m + 1
    else Cut(n, fails, m + 1)
  }

  /** The calls of `trace` that are made: the first raising call is made,
      and its exception ends the run. */
  function UpToFailure(trace: seq<Call>, fails: set<nat>): seq<Call> {
    trace[..Cut(|trace|, fails, 0)]
  }

  /** With no raising position left, every call is made. */
  lemma {:induction false} CutNone(n: nat, fails: set<nat>, m: nat)
    requires m <= n
    requires forall k :: m <= k < n ==> k !in fails
    ensures Cut(n, fails, m) == n
    decreases n - m
  {
    if m < n {
      CutNone(n, fails, m + 1);
    }
  }

  /** The run stops right after the first raising position. */
  lemma {:induction false} CutAt(n: nat, fails: set<nat>, m: nat, c: nat)
    requires m <= c < n && c in fails
    requires forall k :: m <= k < c ==> k !in fails
    ensures Cut(n, fails, m) == c + 1
    decreases c - m
  {
    if m < c {
      CutAt(n, fails, m + 1, c);
    }
  }

  /** With some raising position left, the last call made is the first
      raising one. */
  lemma {:induction false} CutFirst(n: nat, fails: set<nat>, m: nat)
    requires m <= n
    requires exists k :: m <= k < n && k in fails
    ensures var r := Cut(n, fails, m);
      m < r && r - 1 in fails && forall k :: m <= k < r - 1 ==> k !in fails
    decreases n - m
  {
    if m !in fails {
      var k :| m <= k < n && k in fails;
      assert m + 1 <= k;
      CutFirst(n, fails, m + 1);
    }
  }

  /** The calls made are a prefix of the planned ones. */
  lemma UpToFailurePrefix(trace: seq<Call>, fails: set<nat>)
    ensures UpToFailure(trace, fails) <= trace
  {
  }

  /** None failing, every planned call is made. */
  lemma UpToFailureAll(trace: seq<Call>, fails: set<nat>)
    requires NoneFails(trace, fails)
    ensures UpToFailure(trace, fails) == trace
  {
    CutNone(|trace|, fails, 0);
  }

  /** One failing, the last call made is the first failing one. */
  lemma UpToFailureStopsAtFirst(trace: seq<Call>, fails: set<nat>)
    requires !NoneFails(trace, fails)
    ensures var r := UpToFailure(trace, fails);
      r != [] && |r| - 1 in fails && NoneFails(r[..|r| - 1], fails)
  {
    CutFirst(|trace|, fails, 0);
  }

  /** A prefix of `t` whose last call is its only failing one is exactly
      what is made of `t`. */
  lemma UpToFailureStops(p: seq<Call>, t: seq<Call>, fails: set<nat>)
    requires p <= t && p != []
    requires |p| - 1 in fails && NoneFails(p[..|p| - 1], fails)
    ensures UpToFailure(t, fails) == p
  {
    CutAt(|t|, fails, 0, |p| - 1);
  }

  /** A URL listed twice can return the first time and raise the second. */
  lemma SameCallReturnsThenRaises(c: Call)
    ensures UpToFailure([c, c], {1}) == [c, c]
    ensures !NoneFails([c, c], {1})
  {
    CutAt(2, {1}, 0, 1);
  }

  /** The channels before `i` plan a prefix of the whole trace. */
  lemma {:induction false} PlannedCallsGrow(api: set<string>, keys: seq<string>, sendInfo: Dict<seq<string>>, msg: string, i: int)
    requires forall k :: k in keys ==> sendInfo.HasKey(k)
    requires 0 <= i <= |keys|
    ensures PlannedCalls(api, keys[..i], sendInfo, msg) <= PlannedCalls(api, keys, sendInfo, msg)
    decreases |keys|
  {
    if i < |keys| {
      var n := |keys| - 1;
      assert keys[..n][..i] == keys[..i];
      PlannedCallsGrow(api, keys[..n], sendInfo, msg, i);
    } else {
      assert keys[..i] == keys;
    }
  }

  /** The URLs before `j` plan a prefix of the channel's calls. */
  lemma {:induction false} CallsForGrow(api: set<string>, key: string, urls: seq<string>, msg: string, j: int)
    requires 0 <= j <= |urls|
    ensures CallsFor(api, key, urls[..j], msg) <= CallsFor(api, key, urls, msg)
    decreases |urls|
  {
    if j < |urls| {
      var n := |urls| - 1;
      assert urls[..n][..j] == urls[..j];
      CallsForGrow(api, key, urls[..n], msg, j);
    } else {
      assert urls[..j] == urls;
    }
  }

  /** Everything planned up to URL `j` of channel `i` is a prefix of the
      whole plan. */
  lemma PlannedUpTo(api: set<string>, keys: seq<string>, sendInfo: Dict<seq<string>>, msg: string, i: int, j: int)
    requires forall k :: k in keys ==> sendInfo.HasKey(k)
    requires 0 <= i < |keys| && 0 <= j <= |sendInfo.Get(keys[i])|
    ensures PlannedCalls(api, keys[..i], sendInfo, msg) + CallsFor(api, keys[i], sendInfo.Get(keys[i])[..j], msg)
      <= PlannedCalls(api, keys, sendInfo, msg)
  {
    CallsForGrow(api, keys[i], sendInfo.Get(keys[i]), msg, j);
    PlannedCallsSnoc(api, keys, sendInfo, i, msg);
    PlannedCallsGrow(api, keys, sendInfo, msg, i + 1);
  }

  /** Adding a call that does not fail keeps a trace free of failures. */
  lemma NoneFailsSnoc(trace: seq<Call>, c: Call, fails: set<nat>)
    requires NoneFails(trace, fails) && |trace| !in fails
    ensures NoneFails(trace + [c], fails)
  {
  }

  /** The first call that fails, made after a failure-free run of the plan
      up to URL `j` of channel `i`, is where the run ends. */
  lemma StopAt(api: set<string>, keys: seq<string>, sendInfo: Dict<seq<string>>, msg: string,
               i: int, j: int, done: seq<Call>, c: Call, fails: set<nat>)
    requires forall k :: k in keys ==> sendInfo.HasKey(k)
    requires 0 <= i < |keys| && 0 <= j < |sendInfo.Get(keys[i])|
    requires done == PlannedCalls(api, keys[..i], sendInfo, msg) + CallsFor(api, keys[i], sendInfo.Get(keys[i])[..j], msg)
    requires CallsFor(api, keys[i], sendInfo.Get(keys[i])[..j + 1], msg) ==
      CallsFor(api, keys[i], sendInfo.Get(keys[i])[..j], msg) + [c]
    requires NoneFails(done, fails) && |done| in fails
    ensures UpToFailure(PlannedCalls(api, keys, sendInfo, msg), fails) == done + [c]
    ensures !NoneFails(PlannedCalls(api, keys, sendInfo, msg), fails)
  {
    var plan := PlannedCalls(api, keys, sendInfo, msg);
    PlannedUpTo(api, keys, sendInfo, msg, i, j + 1);
    assert done + [c] <= plan;
    assert (done + [c])[..|done|] == done;
    UpToFailureStops(done + [c], plan, fails);
    assert |done| < |plan|;
  }

  /** The fan-out of `send_msg`: for every channel in `send_info` order and
      every URL of that channel, call the channel's method with the URL and
      the message. The call made at a position in `fails` raises, and its
      exception ends the fan-out, so no later call is made. The result is the trace of calls made and
      whether one raised. */
  method SendAll(api: set<string>, sendInfo: Dict<seq<string>>, msg: string, fails: set<nat>)
    returns (calls: seq<Call>, raised: bool)
    requires sendInfo.Valid()
    ensures calls == UpToFailure(PlannedCalls(api, sendInfo.order, sendInfo, msg), fails)
    ensures raised <==> !NoneFails(PlannedCalls(api, sendInfo.order, sendInfo, msg), fails)
  {
    calls, raised := [], false;
    var keys := sendInfo.order;
    var i := 0;
    while i < |keys|
      invariant 0 <= i <= |keys|
      invariant calls == PlannedCalls(api, keys[..i], sendInfo, msg)
      invariant NoneFails(calls, fails)
    {
      var key := keys[i];
      var urls := sendInfo.Get(key);
      ghost var before := calls;
      var j := 0;
      while j < |urls|
        invariant 0 <= j <= |urls|
        invariant calls == before + CallsFor(api, key, urls[..j], msg)
        invariant NoneFails(calls, fails)
      {
        var rep := SendCallMethod(api, key, urls[j], msg);
        CallsForSnoc(api, key, urls, j, msg);
        if rep.Some? {
          if |calls| in fails {
            StopAt(api, keys, sendInfo, msg, i, j, calls, rep.value, fails);
            calls, raised := calls + [rep.value], true;
            return;
          }
          NoneFailsSnoc(calls, rep.value, fails);
          calls := calls + [rep.value];
        }
        j := j + 1;
      }
      assert urls[..j] == urls;
      PlannedCallsSnoc(api, keys, sendInfo, i, msg);
      i := i + 1;
    }
    assert keys[..i] == keys;
    UpToFailureAll(calls, fails);
  }

  /** `send_msg`: nothing is sent unless messages are on and the message's
      type is enabled; otherwise the fan-out of `SendAll` runs. */
  method SendMsg(api: set<string>, isSendMsg: bool, isSendSuccessMsg: bool, isSendFailMsg: bool,
                 sendInfo: Dict<seq<string>>, sendType: int, msg: string, fails: set<nat>)
    returns (calls: seq<Call>, raised: bool)
    requires sendInfo.Valid()
    ensures !ShouldSend(isSendMsg, isSendSuccessMsg, isSendFailMsg, sendType) ==> calls == [] && !raised
    ensures ShouldSend(isSendMsg, isSendSuccessMsg, isSendFailMsg, sendType) ==>
      calls == UpToFailure(PlannedCalls(api, sendInfo.order, sendInfo, msg), fails)
    ensures raised <==>
      ShouldSend(isSendMsg, isSendSuccessMsg, isSendFailMsg, sendType) &&
      !NoneFails(PlannedCalls(api, sendInfo.order, sendInfo, msg), fails)
  {
    calls, raised := [], false;
    if !isSendMsg {
      return;
    }
    if (sendType == SendSuccess && isSendSuccessMsg) || (sendType == SendFail && isSendFailMsg) {
      calls, raised := SendAll(api, sendInfo, msg, fails);
    }
  }
}
