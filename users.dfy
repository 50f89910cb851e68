/**
  `filter_forbidden_users` and `get_forbidden_users_dict`: projecting user
  records onto a list of fields, and attaching cookie records to the users
  whose `pt_pin` they carry.
 */
module Users {
  import opened Wrappers
  import opened Dicts

  /** The keys of `fields` present in `d`, in `fields` order. */
  function Present<V>(d: Dict<V>, fields: seq<string>): (ks: seq<string>)
    ensures forall k :: k in ks <==> k in fields && d.HasKey(k)
  {
    if fields == [] then []
    else
      var last := fields[|fields| - 1];
      assert fields == fields[..|fields| - 1] + [last];
      Present(d, fields[..|fields| - 1]) + (if d.HasKey(last) then [last] else [])
  }

  /** `{key: d[key] for key in fields if key in d}`: exactly the listed keys
      that `d` has, each with its value in `d`. */
  function Project<V>(d: Dict<V>, fields: seq<string>): (r: Dict<V>)
    ensures r.Valid()
    ensures forall k :: r.HasKey(k) <==> k in fields && d.HasKey(k)
    ensures forall k :: r.HasKey(k) ==> d.HasKey(k) && r.Get(k) == d.Get(k)
  {
    if fields == [] then Empty()
    else
      var last := fields[|fields| - 1];
      var acc := Project(d, fields[..|fields| - 1]);
      assert fields == fields[..|fields| - 1] + [last];
      if d.HasKey(last) then acc.Set(last, d.Get(last)) else acc
  }

  /** When no field is listed twice, the projected dict iterates its keys in
      `fields` order. */
  lemma {:induction false} ProjectOrder<V>(d: Dict<V>, fields: seq<string>)
    requires NoDuplicates(fields)
    ensures Project(d, fields).order == Present(d, fields)
  {
    if fields != [] {
      var init, last := fields[..|fields| - 1], fields[|fields| - 1];
      ProjectOrder(d, init);
      assert last !in init;
    }
  }

  /** `filter_forbidden_users`: one projected record per input record, in
      the same order. */
  function FilterForbiddenUsers<V>(userInfo: seq<Dict<V>>, fields: seq<string>): (r: seq<Dict<V>>)
    ensures |r| == |userInfo|
    ensures forall i :: 0 <= i < |r| ==> r[i].Valid()
    ensures forall i, k :: 0 <= i < |r| ==> (r[i].HasKey(k) <==> k in fields && userInfo[i].HasKey(k))
    ensures forall i, k :: 0 <= i < |r| && r[i].HasKey(k) ==>
      userInfo[i].HasKey(k) && r[i].Get(k) == userInfo[i].Get(k)
  {
    seq(|userInfo|, i requires 0 <= i < |userInfo| => Project(userInfo[i], fields))
  }

  /** The text `'pt_pin=' + pt_pin` searched for in a cookie value. */
  function PinMarker(pin: string): string {
    "pt_pin=" + pin
  }

  /** `needle` occurs in `hay` starting at index `i`. */
  predicate OccursAt(needle: string, hay: string, i: int) {
    0 <= i && i + |needle| <= |hay| && hay[i..i + |needle|] == needle
  }

  /** Python's `needle in hay` on strings. */
  predicate IsSubstring(needle: string, hay: string) {
    exists i :: 0 <= i <= |hay| && OccursAt(needle, hay, i)
  }

  /** The cookie record's `value` names the user with this pin. */
  predicate CarriesPin(info: Dict<string>, pin: string)
    requires info.HasKey("value")
  {
    IsSubstring(PinMarker(pin), info.Get("value"))
  }

  /** Every user record has a `pt_pin` field (a missing one raises
      `KeyError` in the source). */
  ghost predicate PinsReadable(userDatas: Dict<Dict<string>>) {
    userDatas.Valid() &&
    forall k :: userDatas.HasKey(k) ==> userDatas.Get(k).HasKey("pt_pin")
  }

  /** Every cookie record has a `value` field whenever one is read; with no
      users nothing is read. */
  predicate ValuesReadable(usersList: seq<Dict<string>>, userDatas: Dict<Dict<string>>) {
    userDatas.order != [] ==> forall i :: 0 <= i < |usersList| ==> usersList[i].HasKey("value")
  }

  /** What the scan of `get_forbidden_users_dict` reads is there: with at
      least one cookie record, every user record has a `pt_pin` field, and
      with at least one user, every cookie record has a `value` field. */
  ghost predicate Readable(usersList: seq<Dict<string>>, userDatas: Dict<Dict<string>>) {
    userDatas.Valid() &&
    (usersList != [] ==> PinsReadable(userDatas)) &&
    ValuesReadable(usersList, userDatas)
  }

  /** The keys of `users` that can all be looked up with a `pt_pin`. */
  predicate Lookable(keys: seq<string>, users: Dict<Dict<string>>) {
    forall k :: k in keys ==> users.HasKey(k) && users.Get(k).HasKey("pt_pin")
  }

  /** `user_datas[key]['pt_pin']`. */
  function Pin(users: Dict<Dict<string>>, k: string): string
    requires users.HasKey(k) && users.Get(k).HasKey("pt_pin")
  {
    users.Get(k).Get("pt_pin")
  }

  /** The inner loop over `keys`: the first key whose pin marker occurs in
      the record's value. */
  function FirstMatchIn(keys: seq<string>, users: Dict<Dict<string>>, info: Dict<string>): Option<string>
    requires Lookable(keys, users)
    requires keys != [] ==> info.HasKey("value")
  {
    if keys == [] then None
    else if CarriesPin(info, Pin(users, keys[0])) then Some(keys[0])
    else FirstMatchIn(keys[1..], users, info)
  }

  /** The user key a cookie record is stored under, if any. */
  function FirstMatch(userDatas: Dict<Dict<string>>, info: Dict<string>): Option<string>
    requires PinsReadable(userDatas)
    requires userDatas.order != [] ==> info.HasKey("value")
  {
    FirstMatchIn(userDatas.order, userDatas, info)
  }

  /** The pin of the `j`-th user in iteration order. */
  function PinAt(userDatas: Dict<Dict<string>>, j: int): string
    requires PinsReadable(userDatas) && 0 <= j < |userDatas.order|
  {
    Pin(userDatas, userDatas.order[j])
  }

  /** The first key, in `keys` order, whose pin the record carries is what
      `FirstMatchIn` returns. */
  lemma {:induction false} FirstMatchInAt(keys: seq<string>, users: Dict<Dict<string>>, info: Dict<string>, j: int)
    requires Lookable(keys, users)
    requires 0 <= j < |keys| && info.HasKey("value")
    requires CarriesPin(info, Pin(users, keys[j]))
    requires forall m :: 0 <= m < j ==> !CarriesPin(info, Pin(users, keys[m]))
    ensures FirstMatchIn(keys, users, info) == Some(keys[j])
  {
    if j > 0 {
      assert keys[1..][j - 1] == keys[j];
      assert forall m :: 0 <= m < j - 1 ==> keys[1..][m] == keys[m + 1];
      FirstMatchInAt(keys[1..], users, info, j - 1);
    }
  }

  /** A record carrying none of the pins is stored under no key. */
  lemma {:induction false} FirstMatchInNone(keys: seq<string>, users: Dict<Dict<string>>, info: Dict<string>)
    requires Lookable(keys, users)
    requires keys != [] ==> info.HasKey("value")
    requires forall m :: 0 <= m < |keys| ==> !CarriesPin(info, Pin(users, keys[m]))
    ensures FirstMatchIn(keys, users, info) == None
  {
    if keys != [] {
      assert forall m :: 0 <= m < |keys| - 1 ==> keys[1..][m] == keys[m + 1];
      FirstMatchInNone(keys[1..], users, info);
    }
  }

  /** A record stored under no key carries none of the pins. */
  lemma {:induction false} FirstMatchInNoneOnly(keys: seq<string>, users: Dict<Dict<string>>, info: Dict<string>)
    requires Lookable(keys, users)
    requires keys != [] ==> info.HasKey("value")
    requires FirstMatchIn(keys, users, info) == None
    ensures forall m :: 0 <= m < |keys| ==> !CarriesPin(info, Pin(users, keys[m]))
  {
    if keys != [] {
      FirstMatchInNoneOnly(keys[1..], users, info);
      forall m | 0 < m < |keys| ensures !CarriesPin(info, Pin(users, keys[m])) {
        assert keys[1..][m - 1] == keys[m];
      }
    }
  }

  /** A key `FirstMatchIn` returns is a listed key whose pin the record
      carries, and no earlier key's pin is carried. */
  lemma {:induction false} FirstMatchInFound(keys: seq<string>, users: Dict<Dict<string>>, info: Dict<string>)
    requires Lookable(keys, users)
    requires keys != [] ==> info.HasKey("value")
    requires FirstMatchIn(keys, users, info).Some?
    ensures exists j :: (0 <= j < |keys| && keys[j] == FirstMatchIn(keys, users, info).value &&
      CarriesPin(info, Pin(users, keys[j])) &&
      forall m :: 0 <= m < j ==> !CarriesPin(info, Pin(users, keys[m])))
  {
    if !CarriesPin(info, Pin(users, keys[0])) {
      FirstMatchInFound(keys[1..], users, info);
      var j :| 0 <= j < |keys[1..]| && keys[1..][j] == FirstMatchIn(keys[1..], users, info).value &&
        CarriesPin(info, Pin(users, keys[1..][j])) &&
        forall m :: 0 <= m < j ==> !CarriesPin(info, Pin(users, keys[1..][m]));
      assert keys[1..][j] == keys[j + 1];
      forall m | 0 <= m < j + 1 ensures !CarriesPin(info, Pin(users, keys[m])) {
        if m > 0 { assert keys[1..][m - 1] == keys[m]; }
      }
    }
  }

  /** `FirstMatch` returns the first user in `user_datas` iteration order
      whose `'pt_pin=' + pin` occurs in the record's value, and nothing
      exactly when there is no such user. */
  lemma FirstMatchSpec(userDatas: Dict<Dict<string>>, info: Dict<string>)
    requires PinsReadable(userDatas)
    requires userDatas.order != [] ==> info.HasKey("value")
    ensures FirstMatch(userDatas, info).None? <==>
      forall j :: 0 <= j < |userDatas.order| ==> !CarriesPin(info, PinAt(userDatas, j))
    ensures FirstMatch(userDatas, info).Some? ==> exists j :: (0 <= j < |userDatas.order| &&
      userDatas.order[j] == FirstMatch(userDatas, info).value &&
      CarriesPin(info, PinAt(userDatas, j)) &&
      forall m :: 0 <= m < j ==> !CarriesPin(info, PinAt(userDatas, m)))
  {
    var keys := userDatas.order;
    if FirstMatch(userDatas, info).Some? {
      FirstMatchInFound(keys, userDatas, info);
      var j :| 0 <= j < |keys| && keys[j] == FirstMatchIn(keys, userDatas, info).value &&
        CarriesPin(info, Pin(userDatas, keys[j])) &&
        forall m :: 0 <= m < j ==> !CarriesPin(info, Pin(userDatas, keys[m]));
      assert CarriesPin(info, PinAt(userDatas, j));
    } else {
      FirstMatchInNoneOnly(keys, userDatas, info);
    }
  }

  /** Storing each record in turn under its slot's key, if it has one;
      a later record stored under the same key overwrites the earlier. */
  function StoreAll<T>(records: seq<T>, slots: seq<Option<string>>): (r: Dict<T>)
    requires |records| == |slots|
    ensures r.Valid()
  {
    if records == [] then Empty()
    else
      var n := |records| - 1;
      var acc := StoreAll(records[..n], slots[..n]);
      match slots[n]
      case None => acc
      case Some(k) => acc.Set(k, records[n])
  }

  /** The last record either is stored under `k` or leaves `k` as the
      earlier records left it. */
  lemma StoreAllStep<T>(records: seq<T>, slots: seq<Option<string>>, k: string)
    requires |records| == |slots| > 0
    ensures var n := |records| - 1;
      var r, acc := StoreAll(records, slots), StoreAll(records[..n], slots[..n]);
      && (slots[n] == Some(k) ==> r.HasKey(k) && r.Get(k) == records[n])
      && (slots[n] != Some(k) ==> (r.HasKey(k) <==> acc.HasKey(k)))
      && (slots[n] != Some(k) && acc.HasKey(k) ==> r.Get(k) == acc.Get(k))
  {
  }

  /** A key is stored exactly when some slot names it. */
  lemma {:induction false} StoreAllKeys<T>(records: seq<T>, slots: seq<Option<string>>, k: string)
    requires |records| == |slots|
    ensures StoreAll(records, slots).HasKey(k) <==> Some(k) in slots
  {
    if records != [] {
      var n := |records| - 1;
      StoreAllStep(records, slots, k);
      StoreAllKeys(records[..n], slots[..n], k);
      assert slots == slots[..n] + [slots[n]];
    }
  }

  /** The record of the last slot naming a key is the value stored under
      it: later records overwrite earlier ones. */
  lemma {:induction false} StoreAllLastWins<T>(records: seq<T>, slots: seq<Option<string>>, k: string, i: int)
    requires |records| == |slots|
    requires 0 <= i < |slots| && slots[i] == Some(k)
    requires forall i' :: i < i' < |slots| ==> slots[i'] != Some(k)
    ensures StoreAll(records, slots).HasKey(k) && StoreAll(records, slots).Get(k) == records[i]
  {
    var n := |records| - 1;
    StoreAllStep(records, slots, k);
    if i < n {
      assert records[..n][i] == records[i] && slots[..n][i] == slots[i];
      assert forall i' :: i < i' < n ==> slots[..n][i'] == slots[i'];
      StoreAllLastWins(records[..n], slots[..n], k, i);
    }
  }

  /** Every stored value is the record of some slot naming its key. */
  lemma {:induction false} StoreAllFrom<T>(records: seq<T>, slots: seq<Option<string>>, k: string)
    requires |records| == |slots|
    requires StoreAll(records, slots).HasKey(k)
    ensures exists i :: 0 <= i < |slots| && slots[i] == Some(k) && StoreAll(records, slots).Get(k) == records[i]
  {
    var n := |records| - 1;
    StoreAllStep(records, slots, k);
    if slots[n] != Some(k) {
      StoreAllFrom(records[..n], slots[..n], k);
      var i :| 0 <= i < n && slots[..n][i] == Some(k) &&
        StoreAll(records[..n], slots[..n]).Get(k) == records[..n][i];
      assert slots[i] == Some(k) && records[i] == records[..n][i];
    }
  }

  /** The key each cookie record is stored under, record by record. */
  function Slots(usersList: seq<Dict<string>>, userDatas: Dict<Dict<string>>): (r: seq<Option<string>>)
    requires Readable(usersList, userDatas)
    ensures |r| == |usersList|
    ensures forall i :: 0 <= i < |r| ==> r[i] == FirstMatch(userDatas, usersList[i])
  {
    seq(|usersList|, i requires 0 <= i < |usersList| => FirstMatch(userDatas, usersList[i]))
  }

  /** The dict `get_forbidden_users_dict` builds: each cookie record in turn
      is stored under its first matching user key, overwriting a record
      stored there before. */
  function ForbiddenUsers(usersList: seq<Dict<string>>, userDatas: Dict<Dict<string>>): Dict<Dict<string>>
    requires Readable(usersList, userDatas)
  {
    StoreAll(usersList, Slots(usersList, userDatas))
  }

  /** A user key is in the result exactly when some cookie record's first
      match is that key. */
  lemma ForbiddenUsersKeys(usersList: seq<Dict<string>>, userDatas: Dict<Dict<string>>, k: string)
    requires Readable(usersList, userDatas)
    ensures ForbiddenUsers(usersList, userDatas).HasKey(k) <==>
      exists i :: 0 <= i < |usersList| && FirstMatch(userDatas, usersList[i]) == Some(k)
  {
    var slots := Slots(usersList, userDatas);
    StoreAllKeys(usersList, slots, k);
    if Some(k) in slots {
      var i :| 0 <= i < |slots| && slots[i] == Some(k);
      assert FirstMatch(userDatas, usersList[i]) == Some(k);
    }
  }

  /** The record stored under a key is the last cookie record whose first
      match is that key. */
  lemma ForbiddenUsersLastWins(usersList: seq<Dict<string>>, userDatas: Dict<Dict<string>>, k: string, i: int)
    requires Readable(usersList, userDatas)
    requires 0 <= i < |usersList| && FirstMatch(userDatas, usersList[i]) == Some(k)
    requires forall i' :: i < i' < |usersList| ==> FirstMatch(userDatas, usersList[i']) != Some(k)
    ensures ForbiddenUsers(usersList, userDatas).HasKey(k)
    ensures ForbiddenUsers(usersList, userDatas).Get(k) == usersList[i]
  {
    StoreAllLastWins(usersList, Slots(usersList, userDatas), k, i);
  }

  /** Every stored key is a user key, and the record stored under it is one
      of the cookie records and carries that user's pin. */
  lemma ForbiddenUsersValues(usersList: seq<Dict<string>>, userDatas: Dict<Dict<string>>, k: string)
    requires Readable(usersList, userDatas)
    requires ForbiddenUsers(usersList, userDatas).HasKey(k)
    ensures userDatas.HasKey(k)
    ensures ForbiddenUsers(usersList, userDatas).Get(k) in usersList
    ensures CarriesPin(ForbiddenUsers(usersList, userDatas).Get(k), Pin(userDatas, k))
  {
    var slots := Slots(usersList, userDatas);
    StoreAllFrom(usersList, slots, k);
    var i :| 0 <= i < |slots| && slots[i] == Some(k) && ForbiddenUsers(usersList, userDatas).Get(k) == usersList[i];
    FirstMatchSpec(userDatas, usersList[i]);
  }

  /** With no cookie records nothing is read: any user dict is accepted and
      the result is empty. */
  lemma NoCookiesNoResult(userDatas: Dict<Dict<string>>)
    requires userDatas.Valid()
    ensures Readable([], userDatas)
    ensures ForbiddenUsers([], userDatas).order == []
    ensures forall k :: !ForbiddenUsers([], userDatas).HasKey(k)
  {
  }

  /** One more cookie record extends the slots by its first match. */
  lemma SlotsSnoc(usersList: seq<Dict<string>>, userDatas: Dict<Dict<string>>, i: int)
    requires Readable(usersList, userDatas) && 0 <= i < |usersList|
    ensures Slots(usersList[..i + 1], userDatas)[..i] == Slots(usersList[..i], userDatas)
    ensures Slots(usersList[..i + 1], userDatas)[i] == FirstMatch(userDatas, usersList[i])
    ensures usersList[..i + 1][..i] == usersList[..i]
  {
    assert usersList[..i + 1][..i] == usersList[..i];
  }

  /** `get_forbidden_users_dict`: for each cookie record, scan the users in
      iteration order, store the record under the first user whose pin it
      carries and stop scanning. */
  method GetForbiddenUsersDict(usersList: seq<Dict<string>>, userDatas: Dict<Dict<string>>)
    returns (usersDict: Dict<Dict<string>>)
    requires Readable(usersList, userDatas)
    ensures usersDict == ForbiddenUsers(usersList, userDatas)
  {
    usersDict := Empty();
    var i := 0;
    while i < |usersList|
      invariant 0 <= i <= |usersList|
      invariant usersDict == ForbiddenUsers(usersList[..i], userDatas)
    {
      var info := usersList[i];
      ghost var before := usersDict;
      SlotsSnoc(usersList, userDatas, i);
      var j := 0;
      while j < |userDatas.order|
        invariant 0 <= j <= |userDatas.order|
        invariant forall m :: 0 <= m < j ==> !CarriesPin(info, Pin(userDatas, userDatas.order[m]))
        invariant usersDict == before
      {
        var key := userDatas.order[j];
        var s := PinMarker(userDatas.Get(key).Get("pt_pin"));
        if IsSubstring(s, info.Get("value")) {
          FirstMatchInAt(userDatas.order, userDatas, info, j);
          usersDict := usersDict.Set(key, info);
          break;
        }
        j := j + 1;
      }
      if j == |userDatas.order| {
        FirstMatchInNone(userDatas.order, userDatas, info);
      }
      i := i + 1;
    }
    assert usersList[..i] == usersList;
  }
}
