/** Who the board is: `core/src/mode.rs`.

    `Side` and `Presence` remember four fields between updates. The specification
    remembers everything: a history of updates, over which "a host is present" is said
    outright. `PresenceRemembers` shows the fields are enough. */
module Mode {
  import opened Results

  const HOLD_MS: nat := 3000

  datatype Transport = Usb | Bluetooth

  datatype BoardMode = Rnode(transport: Transport) | Node | Idle

  /** The input of one update: lines up, and frames heard, per transport. */
  datatype Seen = Seen(usbBus: bool, usbDtr: bool, usbFrame: bool, bleLink: bool, bleFrame: bool)

  datatype Change = HostArrived(transport: Transport) | HostLeft

  // ---------------------------------------------------------------- one transport

  datatype SideState = SideState(present: bool, goneSince: Option<nat>)

  const FORGOTTEN := SideState(false, None)

  function SideStep(s: SideState, now: nat, spoke: bool, attached: bool): SideState {
    if !s.present && !spoke then s
    else if attached || spoke then SideState(true, None)
    else
      var since := if s.goneSince.Some? then s.goneSince.value else now;
      if since + HOLD_MS <= now then FORGOTTEN else SideState(true, Some(since))
  }

  class Side {
    var present: bool
    var goneSince: Option<nat>

    constructor ()
      ensures State() == FORGOTTEN
    {
      present, goneSince := false, None;
    }

    function State(): SideState
      reads this
    {
      SideState(present, goneSince)
    }

    method Update(now: nat, spoke: bool, attached: bool)
      modifies this
      ensures State() == SideStep(old(State()), now, spoke, attached)
    {
      if spoke {
        present := true;
      }
      if !present {
        return;
      }
      if attached || spoke {
        goneSince := None;
        return;
      }
      if goneSince.None? {
        goneSince := Some(now);
      }
      var since := goneSince.value;
      if (if now >= since then now - since else 0) >= HOLD_MS {
        present, goneSince := false, None;
      }
    }
  }

  // ------------------------------------------------------------------- the rule

  datatype PresenceState = PresenceState(usb: SideState, ble: SideState, dtrSeen: bool, wasRnode: bool)

  const NOBODY := PresenceState(FORGOTTEN, FORGOTTEN, false, false)

  function HostOf(usbPresent: bool, blePresent: bool): Option<Transport> {
    if usbPresent then Some(Usb) else if blePresent then Some(Bluetooth) else None
  }

  function ChangeOf(was: bool, host: Option<Transport>): Option<Change> {
    if !was && host.Some? then Some(HostArrived(host.value))
    else if was && host.None? then Some(HostLeft)
    else None
  }

  function PresenceStep(p: PresenceState, now: nat, seen: Seen): (PresenceState, Option<Change>) {
    var dtrSeen := p.dtrSeen || (seen.usbDtr && (seen.usbFrame || p.usb.present));
    var usb := SideStep(p.usb, now, seen.usbFrame && seen.usbBus, seen.usbBus && (seen.usbDtr || !dtrSeen));
    var ble := SideStep(p.ble, now, seen.bleFrame && seen.bleLink, seen.bleLink);
    var host := HostOf(usb.present, ble.present);
    (PresenceState(usb, ble, usb.present && dtrSeen, host.Some?), ChangeOf(p.wasRnode, host))
  }

  class Presence {
    const usb: Side
    const ble: Side
    var dtrSeen: bool
    var wasRnode: bool

    ghost predicate Valid() { usb != ble }

    constructor ()
      ensures Valid() && fresh(usb) && fresh(ble) && State() == NOBODY
    {
      usb := new Side();
      ble := new Side();
      dtrSeen, wasRnode := false, false;
    }

    function State(): PresenceState
      reads this, usb, ble
    {
      PresenceState(usb.State(), ble.State(), dtrSeen, wasRnode)
    }

    method Update(now: nat, seen: Seen) returns (change: Option<Change>)
      requires Valid()
      modifies this, usb, ble
      ensures (State(), change) == PresenceStep(old(State()), now, seen)
    {
      if seen.usbFrame && seen.usbDtr {
        dtrSeen := true;
      }
      if seen.usbDtr && usb.present {
        dtrSeen := true;
      }
      var usbAttached := seen.usbBus && (seen.usbDtr || !dtrSeen);
      usb.Update(now, seen.usbFrame && seen.usbBus, usbAttached);
      if !usb.present {
        dtrSeen := false;
      }
      ble.Update(now, seen.bleFrame && seen.bleLink, seen.bleLink);
      var host := Host();
      change := match (wasRnode, host)
        case (false, Some(transport)) => Some(HostArrived(transport))
        case (true, None) => Some(HostLeft)
        case _ => None;
      wasRnode := host.Some?;
    }

    /** Bluetooth only in the absence of USB. */
    method Host() returns (host: Option<Transport>)
      ensures host == HostOf(usb.present, ble.present)
    {
      if usb.present {
        host := Some(Usb);
      } else if ble.present {
        host := Some(Bluetooth);
      } else {
        host := None;
      }
    }

    method CurrentMode(storedConfig: bool) returns (mode: BoardMode)
      ensures mode.Rnode? <==> usb.present || ble.present
      ensures mode.Rnode? ==> (mode.transport == Usb <==> usb.present)
      ensures !mode.Rnode? ==> (mode == Node <==> storedConfig)
    {
      var host := Host();
      mode := match host
        case Some(transport) => Rnode(transport)
        case None => if storedConfig then Node else Idle;
    }
  }

  // ----------------------------------------------- presence, said of a history

  /** One update of one transport. */
  datatype Tick = Tick(now: nat, spoke: bool, attached: bool)

  predicate Quiet(t: Tick) { !t.spoke && !t.attached }

  predicate Monotone(ticks: seq<Tick>) {
    forall i, j | 0 <= i <= j < |ticks| :: ticks[i].now <= ticks[j].now
  }

  /** An unbroken stretch of quiet updates, `a` to `b`, that spans the hold. */
  predicate GoneThroughout(ticks: seq<Tick>, a: nat, b: nat)
    requires a <= b < |ticks|
  {
    (forall i | a <= i <= b :: Quiet(ticks[i])) && ticks[a].now + HOLD_MS <= ticks[b].now
  }

  ghost predicate NotGoneSince(ticks: seq<Tick>, k: nat) {
    forall a, b | k < a <= b < |ticks| :: !GoneThroughout(ticks, a, b)
  }

  /** It spoke, and has not been gone for the length of the hold since. */
  ghost predicate IsPresent(ticks: seq<Tick>) {
    exists k | 0 <= k < |ticks| :: ticks[k].spoke && NotGoneSince(ticks, k)
  }

  function RunSide(ticks: seq<Tick>): SideState {
    if ticks == [] then FORGOTTEN
    else
      var t := ticks[|ticks| - 1];
      SideStep(RunSide(ticks[..|ticks| - 1]), t.now, t.spoke, t.attached)
  }

  /** Where the quiet stretch that ends the history starts. */
  function TrailStart(ticks: seq<Tick>): (n: nat)
    ensures n <= |ticks|
    ensures forall i | n <= i < |ticks| :: Quiet(ticks[i])
    ensures n > 0 ==> !Quiet(ticks[n - 1])
  {
    if ticks == [] || !Quiet(ticks[|ticks| - 1]) then |ticks| else TrailStart(ticks[..|ticks| - 1])
  }

  lemma EarlierStretch(ticks: seq<Tick>, t: Tick, a: nat, b: nat)
    requires a <= b < |ticks|
    ensures GoneThroughout(ticks + [t], a, b) <==> GoneThroughout(ticks, a, b)
  {
    var all := ticks + [t];
    assert forall i | a <= i <= b :: all[i] == ticks[i];
  }

  lemma StaysPresent(ticks: seq<Tick>, t: Tick, k: nat)
    requires Monotone(ticks + [t]) && k < |ticks| && ticks[k].spoke && NotGoneSince(ticks, k)
    requires Quiet(t) ==> t.now < (ticks + [t])[TrailStart(ticks + [t])].now + HOLD_MS
    ensures NotGoneSince(ticks + [t], k)
  {
    var all, n := ticks + [t], |ticks|;
    forall a, b | k < a <= b <= n ensures !GoneThroughout(all, a, b) {
      if b < n {
        EarlierStretch(ticks, t, a, b);
      }
    }
  }

  lemma WasPresent(ticks: seq<Tick>, t: Tick, k: nat)
    requires Monotone(ticks + [t]) && k < |ticks| && ticks[k].spoke && NotGoneSince(ticks + [t], k)
    ensures NotGoneSince(ticks, k)
    ensures Quiet(t) ==> t.now < (ticks + [t])[TrailStart(ticks + [t])].now + HOLD_MS
  {
    var all, n := ticks + [t], |ticks|;
    forall a, b | k < a <= b < n ensures !GoneThroughout(ticks, a, b) {
      EarlierStretch(ticks, t, a, b);
    }
    if Quiet(t) {
      assert all[k] == ticks[k] && !GoneThroughout(all, TrailStart(all), n);
    }
  }

  lemma PresentStep(ticks: seq<Tick>, t: Tick)
    requires Monotone(ticks + [t])
    ensures var all := ticks + [t];
            IsPresent(all) <==>
            t.spoke || (IsPresent(ticks) && !(Quiet(t) && all[TrailStart(all)].now + HOLD_MS <= t.now))
  {
    hide GoneThroughout, Monotone;
    var all, n := ticks + [t], |ticks|;
    if t.spoke {
      assert all[n].spoke && NotGoneSince(all, n);
    } else {
      if k :| 0 <= k <= n && all[k].spoke && NotGoneSince(all, k) {
        WasPresent(ticks, t, k);
      }
      if k :| 0 <= k < n && ticks[k].spoke && NotGoneSince(ticks, k)
              && (Quiet(t) ==> t.now < all[TrailStart(all)].now + HOLD_MS) {
        StaysPresent(ticks, t, k);
        assert all[k].spoke;
      }
    }
  }

  /** The two fields of a side say what its whole history says. */
  lemma {:induction false} SideRemembers(ticks: seq<Tick>)
    requires Monotone(ticks)
    ensures RunSide(ticks).present <==> IsPresent(ticks)
    ensures RunSide(ticks).goneSince
         == if IsPresent(ticks) && TrailStart(ticks) < |ticks| then Some(ticks[TrailStart(ticks)].now) else None
  {
    if ticks != [] {
      var n := |ticks| - 1;
      var before, t := ticks[..n], ticks[n];
      assert ticks == before + [t];
      SideRemembers(before);
      PresentStep(before, t);
    }
  }

  // ------------------------------------------------------- the two transports

  datatype Report = Report(now: nat, seen: Seen)

  function Ago(h: seq<Report>, n: nat): seq<Report>
    requires n <= |h|
  {
    h[..n]
  }

  /** Bluetooth is attached while the link is up. */
  function BleTicks(h: seq<Report>): seq<Tick> {
    if h == [] then []
    else
      var r := h[|h| - 1];
      BleTicks(h[..|h| - 1])
      + [Tick(r.now, r.seen.bleFrame && r.seen.bleLink, r.seen.bleLink)]
  }

  /** USB is attached while the bus is up and, once DTR has been seen up in this session,
      DTR is up too. */
  ghost function UsbTicks(h: seq<Report>): seq<Tick>
    decreases |h|, 2
  {
    if h == [] then []
    else
      var r, before := h[|h| - 1], h[..|h| - 1];
      UsbTicks(before)
      + [Tick(r.now, r.seen.usbFrame && r.seen.usbBus,
              r.seen.usbBus && (r.seen.usbDtr || !DtrInSession(before)))]
  }

  ghost predicate UsbPresent(h: seq<Report>)
    decreases |h|, 3
  {
    IsPresent(UsbTicks(h))
  }

  /** Some update saw DTR up, and the USB host has been present from it until now. */
  ghost predicate DtrInSession(h: seq<Report>)
    decreases |h|, 4
  {
    exists j | 0 <= j < |h| :: h[j].seen.usbDtr && forall n | j < n <= |h| :: UsbPresent(Ago(h, n))
  }

  ghost predicate BlePresent(h: seq<Report>) { IsPresent(BleTicks(h)) }

  ghost function Host(h: seq<Report>): Option<Transport> { HostOf(UsbPresent(h), BlePresent(h)) }

  predicate MonotoneReports(h: seq<Report>) {
    forall i, j | 0 <= i <= j < |h| :: h[i].now <= h[j].now
  }

  function RunPresence(h: seq<Report>): PresenceState {
    if h == [] then NOBODY
    else
      var r := h[|h| - 1];
      PresenceStep(RunPresence(h[..|h| - 1]), r.now, r.seen).0
  }

  lemma {:induction false} TicksKeepTime(h: seq<Report>)
    ensures |UsbTicks(h)| == |BleTicks(h)| == |h|
    ensures forall i | 0 <= i < |h| :: UsbTicks(h)[i].now == BleTicks(h)[i].now == h[i].now
  {
    if h != [] {
      TicksKeepTime(h[..|h| - 1]);
    }
  }

  lemma DtrStep(h: seq<Report>, r: Report)
    ensures DtrInSession(h + [r]) <==> UsbPresent(h + [r]) && (r.seen.usbDtr || DtrInSession(h))
  {
    hide UsbPresent;
    var all, n := h + [r], |h|;
    assert Ago(all, n + 1) == all;
    assert forall m | 0 <= m <= n :: Ago(all, m) == Ago(h, m);
    if UsbPresent(all) && r.seen.usbDtr {
      assert all[n].seen.usbDtr && forall m | n < m <= n + 1 :: UsbPresent(Ago(all, m));
    }
    if UsbPresent(all) && DtrInSession(h) {
      var j :| 0 <= j < n && h[j].seen.usbDtr && forall m | j < m <= n :: UsbPresent(Ago(h, m));
      assert all[j].seen.usbDtr && forall m | j < m <= n + 1 :: UsbPresent(Ago(all, m));
    }
    if DtrInSession(all) {
      var j :| 0 <= j <= n && all[j].seen.usbDtr && forall m | j < m <= n + 1 :: UsbPresent(Ago(all, m));
      if j < n {
        assert h[j].seen.usbDtr && forall m | j < m <= n :: UsbPresent(Ago(h, m));
      }
    }
  }

  /** After any run of updates on a clock that does not go back, what the board remembers
      is whether each host is present, whether DTR is the judge of the USB one, and whether
      it was an RNode. */
  lemma {:induction false} PresenceRemembers(h: seq<Report>)
    requires MonotoneReports(h)
    ensures RunPresence(h).usb == RunSide(UsbTicks(h)) && RunPresence(h).ble == RunSide(BleTicks(h))
    ensures RunPresence(h).usb.present <==> UsbPresent(h)
    ensures RunPresence(h).ble.present <==> BlePresent(h)
    ensures RunPresence(h).dtrSeen <==> DtrInSession(h)
    ensures RunPresence(h).wasRnode <==> Host(h).Some?
  {
    hide UsbPresent, BlePresent, UsbTicks, BleTicks, DtrInSession, SideStep, RunSide;
    SidesRemember(h);
    if h == [] {
      NobodyYet(h);
    } else {
      var before, r := h[..|h| - 1], h[|h| - 1];
      assert h == before + [r];
      PresenceRemembers(before);
      DtrStep(before, r);
      SidesStep(before, r);
      OnlySpeechArrives(RunSide(UsbTicks(before)), r.now, r.seen.usbFrame && r.seen.usbBus,
                        r.seen.usbBus && (r.seen.usbDtr || !DtrInSession(before)));
    }
  }

  lemma OnlySpeechArrives(s: SideState, now: nat, spoke: bool, attached: bool)
    ensures SideStep(s, now, spoke, attached).present ==> s.present || spoke
  {
  }

  lemma NobodyYet(h: seq<Report>)
    requires h == []
    ensures RunSide(UsbTicks(h)) == RunSide(BleTicks(h)) == FORGOTTEN && !DtrInSession(h)
  {
  }

  lemma SidesRemember(h: seq<Report>)
    requires MonotoneReports(h)
    ensures RunSide(UsbTicks(h)).present <==> UsbPresent(h)
    ensures RunSide(BleTicks(h)).present <==> BlePresent(h)
  {
    TicksKeepTime(h);
    SideRemembers(UsbTicks(h));
    SideRemembers(BleTicks(h));
  }

  lemma SidesStep(h: seq<Report>, r: Report)
    ensures RunSide(UsbTicks(h + [r]))
         == SideStep(RunSide(UsbTicks(h)), r.now, r.seen.usbFrame && r.seen.usbBus,
                     r.seen.usbBus && (r.seen.usbDtr || !DtrInSession(h)))
    ensures RunSide(BleTicks(h + [r]))
         == SideStep(RunSide(BleTicks(h)), r.now, r.seen.bleFrame && r.seen.bleLink, r.seen.bleLink)
  {
    assert (h + [r])[..|h|] == h;
    hide SideStep, DtrInSession;
    var usb, ble := UsbTicks(h + [r]), BleTicks(h + [r]);
    assert usb[..|usb| - 1] == UsbTicks(h) && ble[..|ble| - 1] == BleTicks(h);
  }

  /** What an update reports, of any history on a clock that does not go back: that the USB
      host has arrived, if nobody was here and it is; that the Bluetooth one has, if nobody was
      and it alone is; that the host has left, if one was here and none is; and else nothing. */
  lemma {:induction false} UpdateReportsTheChange(h: seq<Report>, r: Report)
    requires MonotoneReports(h + [r])
    ensures var was, usb, ble := UsbPresent(h) || BlePresent(h), UsbPresent(h + [r]), BlePresent(h + [r]);
            var change := PresenceStep(RunPresence(h), r.now, r.seen).1;
            && (change == Some(HostArrived(Usb)) <==> !was && usb)
            && (change == Some(HostArrived(Bluetooth)) <==> !was && !usb && ble)
            && (change == Some(HostLeft) <==> was && !usb && !ble)
            && (change == None <==> (was <==> usb || ble))
  {
    var all := h + [r];
    assert all[..|all| - 1] == h;
    assert forall i | 0 <= i < |h| :: h[i] == all[i];
    PresenceRemembers(h);
    PresenceRemembers(all);
    hide UsbPresent, BlePresent, SideStep;
  }

  /** The changes a run reports, in order. */
  function Changes(h: seq<Report>): seq<Change> {
    if h == [] then []
    else
      var before, r := h[..|h| - 1], h[|h| - 1];
      match PresenceStep(RunPresence(before), r.now, r.seen).1
      case Some(c) => Changes(before) + [c]
      case None => Changes(before)
  }

  /** Arrivals and departures strictly alternate, an arrival first, whatever the clock does;
      so a host is there exactly when the last of them is an arrival. */
  lemma {:induction false} ChangesAlternate(h: seq<Report>)
    ensures forall k | 0 <= k < |Changes(h)| :: Changes(h)[k].HostArrived? <==> k % 2 == 0
    ensures RunPresence(h).wasRnode <==> |Changes(h)| % 2 == 1
    ensures RunPresence(h).wasRnode <==> RunPresence(h).usb.present || RunPresence(h).ble.present
  {
    if h != [] {
      ChangesAlternate(h[..|h| - 1]);
    }
  }

  /** A host that has once spoken outlives any absence shorter than the hold. */
  lemma ShortAbsenceIsForgiven(h: seq<Report>, r: Report, k: nat)
    requires MonotoneReports(h + [r]) && UsbPresent(h)
    requires k < |h| == |UsbTicks(h)| && !Quiet(UsbTicks(h)[k]) && r.now < h[k].now + HOLD_MS
    ensures UsbPresent(h + [r])
  {
    var all := h + [r];
    assert all[..|all| - 1] == h;
    TicksKeepTime(h);
    TicksKeepTime(all);
    var t := UsbTicks(all)[|h|];
    assert UsbTicks(all) == UsbTicks(h) + [t];
    PresentStep(UsbTicks(h), t);
    if Quiet(t) {
      assert TrailStart(UsbTicks(all)) > k;
    }
  }
}
