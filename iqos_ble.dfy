/**
 * The device object of custom_components/iqos/api/iqos_ble.py: the notification
 * buffer and its frame decoder, the two callback registries, the connection
 * flags and the identity accessors.
 *
 * The Bluetooth transport is outside the model. What the source learns from it
 * (whether the client reports itself connected, what `establish_connection`
 * returns or raises, whether `start_notify` raises) enters each method as a
 * parameter, so every possible answer of the transport is covered. Callbacks are
 * opaque identifiers; firing them yields the sequence of invocations made.
 */
module IqosBle {
  import opened Wrappers
  import opened Models
  import opened Frame

  // ---------------------------------------------------------------------------
  // intify: little-endian unsigned integers
  // ---------------------------------------------------------------------------

  function Pow256(n: nat): (r: nat)
    ensures r >= 1
  {
    if n == 0 then 1 else 256 * Pow256(n - 1)
  }

  /** `int.from_bytes(state, byteorder="little")`: the first byte is the least significant. */
  function Intify(bs: seq<byte>): (r: nat)
    ensures r < Pow256(|bs|)
    ensures bs == [] ==> r == 0
    ensures |bs| == 1 ==> r == bs[0] as nat
  {
    if bs == [] then 0 else bs[0] as nat + 256 * Intify(bs[1..])
  }

  /** The inverse of `Intify` at a fixed width (`int.to_bytes(width, "little")`). */
  function ToLittleEndian(n: nat, width: nat): seq<byte> {
    if width == 0 then [] else [(n % 256) as byte] + ToLittleEndian(n / 256, width - 1)
  }

  /** Every integer that fits in `width` bytes is recovered from its encoding. */
  lemma {:induction false} IntifyToLittleEndian(n: nat, width: nat)
    requires n < Pow256(width)
    ensures |ToLittleEndian(n, width)| == width
    ensures Intify(ToLittleEndian(n, width)) == n
  {
    if width > 0 {
      IntifyToLittleEndian(n / 256, width - 1);
      var bs := ToLittleEndian(n, width);
      assert bs[1..] == ToLittleEndian(n / 256, width - 1);
    }
  }

  /** Every byte string is recovered from the integer `Intify` gives it. */
  lemma {:induction false} ToLittleEndianIntify(bs: seq<byte>)
    ensures ToLittleEndian(Intify(bs), |bs|) == bs
  {
    if bs != [] {
      ToLittleEndianIntify(bs[1..]);
      var n := Intify(bs);
      assert n % 256 == bs[0] as int && n / 256 == Intify(bs[1..]);
      assert bs == [bs[0]] + bs[1..];
    }
  }

  /** Little-endian: the bytes of `hi` weigh 256^|lo| times more than those of `lo`. */
  lemma {:induction false} IntifyConcat(lo: seq<byte>, hi: seq<byte>)
    ensures Intify(lo + hi) == Intify(lo) + Pow256(|lo|) * Intify(hi)
  {
    if lo == [] {
      assert lo + hi == hi;
    } else {
      assert (lo + hi)[1..] == lo[1..] + hi;
      IntifyConcat(lo[1..], hi);
      ScaleSum(lo[0] as nat, Intify(lo[1..]), Pow256(|lo| - 1), Intify(hi));
    }
  }

  lemma ScaleSum(d: nat, a: nat, p: nat, b: nat)
    ensures d + 256 * (a + p * b) == (d + 256 * a) + (256 * p) * b
  {
  }

  // ---------------------------------------------------------------------------
  // Decoding a matched frame into a state
  // ---------------------------------------------------------------------------

  /** What any decoded state, and the default state, satisfy. */
  predicate Consistent(s: IqosBleState) {
    0 <= s.caseBattery <= 255 && (s.penDischarged.None? <==> s.isOpen)
  }

  /** The state the notification handler builds from a match. */
  function DecodeState(m: FrameMatch): (s: IqosBleState)
    requires |m.caseBattery| == 1 && |m.penBattery| <= 1
    ensures s.caseBattery == m.caseBattery[0] as int
    ensures 0 <= s.caseBattery <= 255
    ensures s.isOpen <==> m.penBattery == []
    ensures s.penDischarged.None? <==> s.isOpen
    ensures !s.isOpen ==> s.penDischarged == Some(m.penBattery[0] == 0)
  {
    var penBattery := m.penBattery;
    IqosBleState(
      Intify(m.caseBattery),
      if penBattery == [] then None else Some(Intify(penBattery) == 0),
      penBattery == [])
  }

  lemma DefaultStateConsistent()
    ensures Consistent(DefaultState())
  {
  }

  // ---------------------------------------------------------------------------
  // list.remove
  // ---------------------------------------------------------------------------

  /** The index of the first occurrence of `x` in `s`. */
  function FirstIndex<T(==)>(s: seq<T>, x: T): (k: nat)
    requires x in s
    ensures k < |s| && s[k] == x
    ensures forall j :: 0 <= j < k ==> s[j] != x
  {
    if s[0] == x then 0 else 1 + FirstIndex(s[1..], x)
  }

  /** `list.remove(x)` on a list holding `x`: drops the first entry equal to `x`. */
  function RemoveFirst<T(==)>(s: seq<T>, x: T): seq<T> {
    if s == [] then []
    else if s[0] == x then s[1..]
    else [s[0]] + RemoveFirst(s[1..], x)
  }

  /**
   * Removing drops exactly the entry at the first index of `x` and keeps the
   * others in order.
   */
  lemma {:induction false} RemoveFirstSplices<T>(s: seq<T>, x: T)
    requires x in s
    ensures RemoveFirst(s, x) == s[..FirstIndex(s, x)] + s[FirstIndex(s, x) + 1..]
  {
    if s[0] != x {
      RemoveFirstSplices(s[1..], x);
      assert s[1..][..FirstIndex(s[1..], x)] == s[1..FirstIndex(s, x)];
      assert s[..FirstIndex(s, x)] == [s[0]] + s[1..FirstIndex(s, x)];
      assert s[1..][FirstIndex(s[1..], x) + 1..] == s[FirstIndex(s, x) + 1..];
    }
  }

  /** Removing takes one copy of `x` out of the multiset of entries and nothing else. */
  lemma {:induction false} RemoveFirstMultiset<T>(s: seq<T>, x: T)
    requires x in s
    ensures multiset(RemoveFirst(s, x)) == multiset(s) - multiset{x}
    ensures |RemoveFirst(s, x)| == |s| - 1
  {
    if s[0] != x {
      RemoveFirstMultiset(s[1..], x);
      assert s == [s[0]] + s[1..];
    } else {
      assert s == [x] + s[1..];
    }
  }

  /** Duplicates are kept: with two registrations of `x`, one survives a removal. */
  lemma {:induction false} RemoveFirstKeepsDuplicate<T>(s: seq<T>, x: T)
    requires multiset(s)[x] >= 2
    ensures x in RemoveFirst(s, x)
  {
    assert x in multiset(s);
    RemoveFirstMultiset(s, x);
    assert multiset(RemoveFirst(s, x))[x] >= 1;
  }

  /**
   * Registering `x` and calling the unregister function returned for it removes
   * the EARLIEST registration of `x`, not the one just made.
   */
  lemma {:induction false} RegisterThenUnregister<T>(s: seq<T>, x: T)
    ensures x !in s ==> RemoveFirst(s + [x], x) == s
    ensures x in s ==> RemoveFirst(s + [x], x) == RemoveFirst(s, x) + [x]
  {
    if s != [] {
      assert (s + [x])[1..] == s[1..] + [x];
      RegisterThenUnregister(s[1..], x);
      if s[0] != x {
        assert x in s ==> x in s[1..];
      }
    }
  }

  // ---------------------------------------------------------------------------
  // The device
  // ---------------------------------------------------------------------------

  /** `bleak.backends.device.BLEDevice`, as far as the device object reads it. */
  datatype BleDevice = BleDevice(address: string, name: Option<string>)

  /** `bleak.backends.scanner.AdvertisementData`, as far as the device object reads it. */
  datatype AdvertisementData = AdvertisementData(rssi: int)

  /** An opaque handle on a live `BleakClientWithServiceCache` session. */
  datatype Client = Client(id: nat)

  /** A callback function, compared by equality as `list.remove` compares it. */
  datatype CallbackId = CallbackId(id: nat)

  /** One call `callback(state)` made while firing the state callbacks. */
  datatype StateCall = StateCall(callback: CallbackId, state: IqosBleState)

  /**
   * Errors the model raises: `ValueError` from `list.remove`, and the transport's
   * `BleakNotFoundError` and other Bleak errors.
   */
  datatype Error = ValueError | DeviceNotFound | TransportFailure

  /** What `establish_connection` does: return a client or raise. */
  datatype ConnectAttempt = Established(client: Client) | Raised(error: Error)

  /** The unregister function returned by a `register_*` call. */
  datatype Unregistration = UnregisterState(callback: CallbackId) | UnregisterDisconnected(callback: CallbackId)

  class IqosBle {
    var bleDevice: BleDevice
    var advertisementData: Option<AdvertisementData>
    var state: IqosBleState
    var client: Option<Client>
    var expectedDisconnect: bool
    var callbacks: seq<CallbackId>
    var disconnectedCallbacks: seq<CallbackId>
    var buf: seq<byte>

    /** The state held is always one the decoder could have produced, or the default. */
    ghost predicate Valid()
      reads this
    {
      Consistent(state)
    }

    constructor (bleDevice: BleDevice, advertisementData: Option<AdvertisementData>)
      ensures Valid()
      ensures this.bleDevice == bleDevice && this.advertisementData == advertisementData
      ensures state == DefaultState()
      ensures client.None? && !expectedDisconnect
      ensures callbacks == [] && disconnectedCallbacks == [] && buf == []
    {
      this.bleDevice := bleDevice;
      this.advertisementData := advertisementData;
      state := DefaultState();
      client := None;
      expectedDisconnect := false;
      callbacks := [];
      disconnectedCallbacks := [];
      buf := [];
    }

    method SetBleDeviceAndAdvertisementData(bleDevice: BleDevice, advertisementData: AdvertisementData)
      modifies this
      ensures this.bleDevice == bleDevice && this.advertisementData == Some(advertisementData)
      ensures state == old(state) && client == old(client) && expectedDisconnect == old(expectedDisconnect)
      ensures callbacks == old(callbacks) && disconnectedCallbacks == old(disconnectedCallbacks) && buf == old(buf)
    {
      this.bleDevice := bleDevice;
      this.advertisementData := Some(advertisementData);
    }

    // ----- identity and state accessors -----

    /** `name`: the advertised name unless it is missing or empty, else the address. */
    function Name(): (r: string)
      reads this
      ensures bleDevice.name.Some? && bleDevice.name.value != [] ==> r == bleDevice.name.value
      ensures bleDevice.name.None? || bleDevice.name.value == [] ==> r == bleDevice.address
      ensures r == [] ==> bleDevice.address == []
    {
      match bleDevice.name
      case Some(n) => if n != [] then n else bleDevice.address
      case None => bleDevice.address
    }

    /** `rssi`: absent exactly when no advertisement data was supplied. */
    function Rssi(): (r: Option<int>)
      reads this
      ensures r.None? <==> advertisementData.None?
      ensures r.Some? ==> r.value == advertisementData.value.rssi
    {
      if advertisementData.Some? then Some(advertisementData.value.rssi) else None
    }

    function CaseBattery(): (r: int)
      reads this
      requires Valid()
      ensures 0 <= r <= 255
    {
      state.caseBattery
    }

    function PenDischarged(): (r: Option<bool>)
      reads this
      requires Valid()
      ensures r.None? <==> state.isOpen
    {
      state.penDischarged
    }

    function IsOpen(): (r: bool)
      reads this
      requires Valid()
      ensures r <==> state.penDischarged.None?
    {
      state.isOpen
    }

    // ----- callback registries -----

    /** `_fire_callbacks`: each registered callback in order, each given the current state. */
    method FireCallbacks() returns (calls: seq<StateCall>)
      ensures |calls| == |callbacks|
      ensures forall i :: 0 <= i < |calls| ==> calls[i] == StateCall(callbacks[i], state)
    {
      calls := [];
      var i := 0;
      while i < |callbacks|
        invariant 0 <= i <= |callbacks|
        invariant |calls| == i
        invariant forall k :: 0 <= k < i ==> calls[k] == StateCall(callbacks[k], state)
      {
        calls := calls + [StateCall(callbacks[i], state)];
        i := i + 1;
      }
    }

    /** `register_callback`: appends, and returns the function that unregisters it. */
    method RegisterCallback(callback: CallbackId) returns (unregister: Unregistration)
      modifies this
      ensures callbacks == old(callbacks) + [callback]
      ensures unregister == UnregisterState(callback)
      ensures disconnectedCallbacks == old(disconnectedCallbacks)
      ensures state == old(state) && buf == old(buf) && client == old(client)
      ensures expectedDisconnect == old(expectedDisconnect) && bleDevice == old(bleDevice)
      ensures advertisementData == old(advertisementData)
    {
      callbacks := callbacks + [callback];
      unregister := UnregisterState(callback);
    }

    /** `_fire_disconnected_callbacks`: each registered disconnect callback in order. */
    method FireDisconnectedCallbacks() returns (calls: seq<CallbackId>)
      ensures calls == disconnectedCallbacks
    {
      calls := [];
      var i := 0;
      while i < |disconnectedCallbacks|
        invariant 0 <= i <= |disconnectedCallbacks|
        invariant calls == disconnectedCallbacks[..i]
      {
        calls := calls + [disconnectedCallbacks[i]];
        i := i + 1;
      }
    }

    /** `register_disconnected_callback`: appends, and returns the function that unregisters it. */
    method RegisterDisconnectedCallback(callback: CallbackId) returns (unregister: Unregistration)
      modifies this
      ensures disconnectedCallbacks == old(disconnectedCallbacks) + [callback]
      ensures unregister == UnregisterDisconnected(callback)
      ensures callbacks == old(callbacks)
      ensures state == old(state) && buf == old(buf) && client == old(client)
      ensures expectedDisconnect == old(expectedDisconnect) && bleDevice == old(bleDevice)
      ensures advertisementData == old(advertisementData)
    {
      disconnectedCallbacks := disconnectedCallbacks + [callback];
      unregister := UnregisterDisconnected(callback);
    }

    /**
     * Calling a returned unregister function: `list.remove` on its list, which
     * drops the first equal entry or raises `ValueError` when there is none.
     */
    method Unregister(unregister: Unregistration) returns (r: Outcome<Error>)
      modifies this
      ensures unregister.UnregisterState? ==>
        r == (if unregister.callback in old(callbacks) then Pass else Fail(ValueError)) &&
        callbacks == RemoveFirst(old(callbacks), unregister.callback) &&
        disconnectedCallbacks == old(disconnectedCallbacks)
      ensures unregister.UnregisterDisconnected? ==>
        r == (if unregister.callback in old(disconnectedCallbacks) then Pass else Fail(ValueError)) &&
        disconnectedCallbacks == RemoveFirst(old(disconnectedCallbacks), unregister.callback) &&
        callbacks == old(callbacks)
      ensures r.Fail? ==> callbacks == old(callbacks) && disconnectedCallbacks == old(disconnectedCallbacks)
      ensures state == old(state) && buf == old(buf) && client == old(client)
      ensures expectedDisconnect == old(expectedDisconnect) && bleDevice == old(bleDevice)
      ensures advertisementData == old(advertisementData)
    {
      match unregister
      case UnregisterState(cb) =>
        if cb in callbacks {
          callbacks := RemoveFirst(callbacks, cb);
          r := Pass;
        } else {
          RemoveFirstAbsent(callbacks, cb);
          r := Fail(ValueError);
        }
      case UnregisterDisconnected(cb) =>
        if cb in disconnectedCallbacks {
          disconnectedCallbacks := RemoveFirst(disconnectedCallbacks, cb);
          r := Pass;
        } else {
          RemoveFirstAbsent(disconnectedCallbacks, cb);
          r := Fail(ValueError);
        }
    }

    // ----- notifications -----

    /**
     * `_notification_handler`: appends the notification to the buffer and looks
     * for the leftmost frame in it. Without one, the buffer keeps every byte and
     * nothing else happens. With one, the buffer keeps only what follows the
     * match, the state is replaced by the decoded one, and then every state
     * callback is called, in registration order, with that new state.
     */
    method NotificationHandler(sender: int, data: seq<byte>) returns (calls: seq<StateCall>)
      requires Valid()
      modifies this
      ensures Valid()
      ensures Search(old(buf) + data).None? ==>
        buf == old(buf) + data && state == old(state) && calls == []
      ensures Search(old(buf) + data).Some? ==>
        var m := Search(old(buf) + data).value;
        buf == (old(buf) + data)[m.end..] &&
        state == DecodeState(m) &&
        |calls| == |callbacks| &&
        forall i :: 0 <= i < |calls| ==> calls[i] == StateCall(callbacks[i], state)
      ensures callbacks == old(callbacks) && disconnectedCallbacks == old(disconnectedCallbacks)
      ensures client == old(client) && expectedDisconnect == old(expectedDisconnect)
      ensures bleDevice == old(bleDevice) && advertisementData == old(advertisementData)
    {
      buf := buf + data;
      var msg := Search(buf);
      calls := [];
      if msg.Some? {
        var m := msg.value;
        MatchReencodes(buf, m.start);
        buf := buf[m.end..];
        var caseBatteryInt := Intify(m.caseBattery);
        var penBattery := m.penBattery;
        var penBatteryInt := Intify(penBattery);
        state := IqosBleState(
          caseBatteryInt,
          if penBattery == [] then None else Some(penBatteryInt == 0),
          penBattery == []);
        calls := FireCallbacks();
      }
    }

    // ----- connection flags -----

    /**
     * `_ensure_connected`: nothing to do when a client exists and reports itself
     * connected; otherwise one call of `establish_connection`, whose client is
     * kept, or whose exception propagates with the client left as it was.
     * `isConnected` is what the existing client's `is_connected` reports.
     */
    method EnsureConnected(isConnected: bool, attempt: ConnectAttempt) returns (r: Outcome<Error>, attempted: bool)
      modifies this
      ensures attempted <==> !(old(client).Some? && isConnected)
      ensures !attempted ==> r == Pass && client == old(client)
      ensures attempted && attempt.Established? ==> r == Pass && client == Some(attempt.client)
      ensures attempted && attempt.Raised? ==> r == Fail(attempt.error) && client == old(client)
      ensures r.Pass? ==> client.Some?
      ensures expectedDisconnect == old(expectedDisconnect)
      ensures state == old(state) && buf == old(buf)
      ensures callbacks == old(callbacks) && disconnectedCallbacks == old(disconnectedCallbacks)
      ensures bleDevice == old(bleDevice) && advertisementData == old(advertisementData)
    {
      if client.Some? && isConnected {
        return Pass, false;
      }
      // The source repeats the check under its connect lock; with one caller at
      // a time the second check gives the same answer as the first.
      attempted := true;
      match attempt
      case Established(c) =>
        client := Some(c);
        r := Pass;
      case Raised(e) =>
        r := Fail(e);
    }

    /**
     * `initialise`: ensures a connection, then subscribes the notification
     * handler on the client if there is one. `subscribe` is what `start_notify`
     * does: return, or raise. On success `subscribed` is the client subscribed on.
     */
    method Initialise(isConnected: bool, attempt: ConnectAttempt, subscribe: Outcome<Error>)
      returns (r: Outcome<Error>, subscribed: Option<Client>)
      modifies this
      ensures r.Pass? ==> subscribed == client && client.Some?
      ensures r.Fail? ==> subscribed.None?
      ensures old(client).Some? && isConnected ==> client == old(client) && r == subscribe
      ensures !(old(client).Some? && isConnected) ==>
        match attempt
        case Established(c) => client == Some(c) && r == subscribe
        case Raised(e) => client == old(client) && r == Fail(e)
      ensures expectedDisconnect == old(expectedDisconnect)
      ensures state == old(state) && buf == old(buf)
      ensures callbacks == old(callbacks) && disconnectedCallbacks == old(disconnectedCallbacks)
      ensures bleDevice == old(bleDevice) && advertisementData == old(advertisementData)
    {
      var connected, _ := EnsureConnected(isConnected, attempt);
      if connected.Fail? {
        return connected, None;
      }
      subscribed := None;
      r := Pass;
      if client.Some? {
        r := subscribe;
        if subscribe.Pass? {
          subscribed := client;
        }
      }
    }

    /**
     * `_execute_disconnect`: marks the coming disconnect as expected and drops
     * the client; the old client is torn down (`stop_notify`, `disconnect`) only
     * if it reports itself connected. `tornDown` is that client.
     */
    method ExecuteDisconnect(isConnected: bool) returns (tornDown: Option<Client>)
      modifies this
      ensures client.None? && expectedDisconnect
      ensures tornDown == (if old(client).Some? && isConnected then old(client) else None)
      ensures state == old(state) && buf == old(buf)
      ensures callbacks == old(callbacks) && disconnectedCallbacks == old(disconnectedCallbacks)
      ensures bleDevice == old(bleDevice) && advertisementData == old(advertisementData)
    {
      var c := client;
      expectedDisconnect := true;
      client := None;
      tornDown := None;
      if c.Some? && isConnected {
        tornDown := c;
      }
    }

    /** `stop`: an expected disconnect. */
    method Stop(isConnected: bool) returns (tornDown: Option<Client>)
      modifies this
      ensures client.None? && expectedDisconnect
      ensures tornDown == (if old(client).Some? && isConnected then old(client) else None)
      ensures state == old(state) && buf == old(buf)
      ensures callbacks == old(callbacks) && disconnectedCallbacks == old(disconnectedCallbacks)
      ensures bleDevice == old(bleDevice) && advertisementData == old(advertisementData)
    {
      tornDown := ExecuteDisconnect(isConnected);
    }

    /**
     * `_disconnected`, called by the transport on any link loss: fires every
     * disconnect callback in order, then asks for a reconnect exactly when the
     * disconnect was not expected. It changes no field.
     */
    method Disconnected(lost: Client) returns (calls: seq<CallbackId>, reconnect: bool)
      ensures calls == disconnectedCallbacks
      ensures reconnect <==> !expectedDisconnect
    {
      calls := FireDisconnectedCallbacks();
      reconnect := !expectedDisconnect;
    }
  }

  /** `list.remove` leaves a list without `x` as it is (and raises). */
  lemma {:induction false} RemoveFirstAbsent<T>(s: seq<T>, x: T)
    requires x !in s
    ensures RemoveFirst(s, x) == s
  {
    if s != [] {
      assert x !in s[1..];
      RemoveFirstAbsent(s[1..], x);
    }
  }

  /**
   * After `stop`, then `initialise`, registering and unregistering a disconnect
   * callback and one notification, a link loss does not ask for a reconnect.
   */
  method StopSuppressesReconnect(d: IqosBle, isConnected: bool, attempt: ConnectAttempt, lost: Client)
    returns (reconnect: bool)
    requires d.Valid()
    modifies d
    ensures !reconnect
  {
    var _ := d.Stop(isConnected);
    var _, _ := d.Initialise(isConnected, attempt, Pass);
    var _ := d.RegisterDisconnectedCallback(CallbackId(0));
    var _ := d.NotificationHandler(0, [0x07, 0x00, 0x64, 0x01, 0x02, 0x03]);
    var _ := d.Unregister(UnregisterDisconnected(CallbackId(0)));
    var calls;
    calls, reconnect := d.Disconnected(lost);
  }

  /**
   * A fresh device that loses its link without `stop` having been called asks
   * for a reconnect, after telling every disconnect callback.
   */
  /** One call a client can make on an `IqosBle`, with the transport's answers it needs. */
  datatype Call =
    | SetDevice(bleDevice: BleDevice, advertisementData: AdvertisementData)
    | FireState
    | RegisterState(callback: CallbackId)
    | FireLoss
    | RegisterLoss(callback: CallbackId)
    | Remove(unregister: Unregistration)
    | Notify(sender: int, data: seq<byte>)
    | Connect(isConnected: bool, attempt: ConnectAttempt)
    | Start(isConnected: bool, attempt: ConnectAttempt, subscribe: Outcome<Error>)
    | Teardown(isConnected: bool)
    | Halt(isConnected: bool)
    | Lose(lost: Client)

  /** The number of link losses in a run of calls. */
  function LossCount(run: seq<Call>): nat {
    if run == [] then 0
    else LossCount(run[..|run| - 1]) + (if run[|run| - 1].Lose? then 1 else 0)
  }

  /**
   * The expected-disconnect flag is never cleared: after `stop`, whatever run of
   * calls follows, every link loss in it answers that no reconnect is wanted.
   */
  method StopSuppressesEveryReconnect(d: IqosBle, isConnected: bool, run: seq<Call>)
    returns (reconnects: seq<bool>)
    requires d.Valid()
    modifies d
    ensures d.expectedDisconnect
    ensures |reconnects| == LossCount(run)
    ensures forall k :: 0 <= k < |reconnects| ==> !reconnects[k]
  {
    var _ := d.Stop(isConnected);
    reconnects := [];
    var i := 0;
    while i < |run|
      invariant 0 <= i <= |run|
      invariant d.Valid() && d.expectedDisconnect
      invariant |reconnects| == LossCount(run[..i])
      invariant forall k :: 0 <= k < |reconnects| ==> !reconnects[k]
    {
      assert run[..i + 1][..i] == run[..i];
      match run[i] {
        case SetDevice(dev, adv) => d.SetBleDeviceAndAdvertisementData(dev, adv);
        case FireState => var _ := d.FireCallbacks();
        case RegisterState(cb) => var _ := d.RegisterCallback(cb);
        case FireLoss => var _ := d.FireDisconnectedCallbacks();
        case RegisterLoss(cb) => var _ := d.RegisterDisconnectedCallback(cb);
        case Remove(u) => var _ := d.Unregister(u);
        case Notify(sender, data) => var _ := d.NotificationHandler(sender, data);
        case Connect(c, attempt) => var _, _ := d.EnsureConnected(c, attempt);
        case Start(c, attempt, subscribe) => var _, _ := d.Initialise(c, attempt, subscribe);
        case Teardown(c) => var _ := d.ExecuteDisconnect(c);
        case Halt(c) => var _ := d.Stop(c);
        case Lose(lost) =>
          var _, reconnect := d.Disconnected(lost);
          reconnects := reconnects + [reconnect];
      }
      i := i + 1;
    }
    assert run[..i] == run;
  }

  method UnexpectedLossReconnects(dev: BleDevice, c: Client) returns (calls: seq<CallbackId>, reconnect: bool)
    ensures calls == [CallbackId(1), CallbackId(2)]
    ensures reconnect
  {
    var d := new IqosBle(dev, None);
    var _, _ := d.Initialise(false, Established(c), Pass);
    var _ := d.RegisterDisconnectedCallback(CallbackId(1));
    var _ := d.RegisterDisconnectedCallback(CallbackId(2));
    calls, reconnect := d.Disconnected(c);
  }

  /**
   * Several frames in one notification: only the first is decoded, and the
   * second stays in the buffer until the next notification.
   */
  method OneFramePerNotification(dev: BleDevice) returns (first: IqosBleState, left: seq<byte>)
    ensures first == IqosBleState(50, Some(false), false)
    ensures left == [0x07, 0x00, 0x64, 0x01, 0x02, 0x03]
  {
    var d := new IqosBle(dev, None);
    var data: seq<byte> := [0x0F, 0x00, 0x32, 0x00, 0x00, 0x00, 0x01, 0x07, 0x00, 0x64, 0x01, 0x02, 0x03];
    assert MatchAt(data, 0) && PenPresentAt(data, 0);
    var m := FrameAt(data, 0).value;
    assert Search(data) == Some(m) && m.end == 7;
    assert data[7..] == [0x07, 0x00, 0x64, 0x01, 0x02, 0x03];
    assert [] + data == data;
    var _ := d.NotificationHandler(0, data);
    first, left := d.state, d.buf;
  }

  /**
   * Splitting a frame across notifications can change the result: seven bytes in
   * one notification decode with the pen byte; the same bytes as six and then one
   * decode without it, and the last byte stays in the buffer.
   */
  method SplitDeliveryDiffers(dev: BleDevice) returns (whole: IqosBleState, split: IqosBleState, left: seq<byte>)
    ensures whole == IqosBleState(50, Some(false), false)
    ensures split == IqosBleState(50, None, true)
    ensures left == [0x01]
  {
    var frame: seq<byte> := [0x0F, 0x00, 0x32, 0x00, 0x00, 0x00, 0x01];
    var a := new IqosBle(dev, None);
    assert MatchAt(frame, 0);
    var _ := a.NotificationHandler(0, frame);
    whole := a.state;

    var b := new IqosBle(dev, None);
    assert MatchAt(frame[..6], 0);
    var _ := b.NotificationHandler(0, frame[..6]);
    var _ := b.NotificationHandler(0, frame[6..]);
    split, left := b.state, b.buf;
  }
}
