/** The device state the firmware mutates: the `openLockers` vector, the
    status messages handed to `client.publish`, and the levels written to
    the locker pins. `millis()` is the `now` parameter of each operation. */
module Controller {

  import opened Clock
  import opened Optional
  import opened Responses
  import opened Registry

  /** An inbound command after JSON decoding. `action` and `lockerId` are
      `None` when the document has no such string field; `gpio` is the JSON
      library's `int` conversion of the field, 0 when it is absent. */
  datatype Command = Command(action: Option<string>, lockerId: Option<string>, gpio: int)

  /** The gate in the message callback: both strings present and a
      nonzero gpio. The text of `action` is never looked at, and a
      negative gpio passes. */
  predicate Accepts(cmd: Command): (accepted: bool)
    ensures accepted ==> cmd.lockerId.Some? && cmd.gpio != 0
    ensures cmd.action.None? || cmd.lockerId.None? ==> !accepted
    ensures cmd.action.Some? && cmd.lockerId.Some? ==> (accepted <==> cmd.gpio != 0)
  {
    cmd.action.Some? && cmd.lockerId.Some? && cmd.gpio != 0
  }

  /** What the gate lets through does not depend on which action is asked
      for: any present `action`, "open" or not, is treated alike. */
  lemma AcceptsAnyAction(cmd: Command, action: string)
    requires cmd.action.Some?
    ensures Accepts(cmd) <==> Accepts(cmd.(action := Some(action)))
    ensures Accepts(cmd) <==> cmd.lockerId.Some? && cmd.gpio != 0
  {
  }

  /** The pin read as the reset button after each sweep (GPIO0, the BOOT
      button); LOW there for 5 s erases the WiFi settings and restarts. */
  const RESET_BUTTON_PIN: Pin := 0

  /** A locker command can reach the reset button's pin: gpio 256 passes the
      gate, drives pin 0, and the sweep that closes it writes pin 0 LOW. */
  lemma LockerOnResetPin(now: Millis)
    ensures Accepts(Command(Some("open"), Some("Z"), 256))
    ensures PinOf(256) == RESET_BUTTON_PIN
    ensures var e := LockerInfo(256, now, "Z");
            Lowered(map[], [e], Advance(now, LOCKER_OPEN_TIME + 1))[RESET_BUTTON_PIN] == Low
  {
    var e := LockerInfo(256, now, "Z");
    var later := Advance(now, LOCKER_OPEN_TIME + 1);
    assert Expired(e, later);
    LoweredAt(map[], [e], later, RESET_BUTTON_PIN);
  }

  class Device {
    /** The registry of unlocked compartments, in the order they opened. */
    var openLockers: seq<LockerInfo>
    /** Every message published so far, oldest first. */
    var published: seq<Publication>
    /** The level last written to each pin. */
    var pins: map<Pin, Level>

    /** The state after boot: nothing open, nothing published. */
    constructor ()
      ensures openLockers == [] && published == [] && pins == map[]
    {
      openLockers := [];
      published := [];
      pins := map[];
    }

    /** `openLocker`: drive the gpio's pin HIGH and append an entry stamped with
        the current time. There is no check for a gpio that is already
        open, so opening it again adds a second entry. */
    method OpenLocker(gpio: int, lockerId: string, now: Millis)
      modifies this
      ensures openLockers == old(openLockers) + [LockerInfo(gpio, now, lockerId)]
      ensures pins == old(pins)[PinOf(gpio) := High]
      ensures published == old(published)
    {
      pins := pins[PinOf(gpio) := High];
      openLockers := openLockers + [LockerInfo(gpio, now, lockerId)];
    }

    /** `closeLocker`: for a position inside the registry, drive that
        entry's pin LOW, publish its "closed" message and erase it; for
        any other position, do nothing at all. */
    method CloseLocker(index: int)
      modifies this
      ensures 0 <= index < |old(openLockers)| ==>
                openLockers == Erase(old(openLockers), index) &&
                pins == old(pins)[PinOf(old(openLockers)[index].gpio) := Low] &&
                published == old(published) + [ClosedNotice(old(openLockers)[index])]
      ensures !(0 <= index < |old(openLockers)|) ==>
                openLockers == old(openLockers) && pins == old(pins) && published == old(published)
    {
      if 0 <= index < |openLockers| {
        var locker := openLockers[index];
        pins := pins[PinOf(locker.gpio) := Low];
        published := published + [Notice(locker.lockerId, locker.gpio, Closed)];
        openLockers := Erase(openLockers, index);
      }
    }

    /** The expiry loop of `loop()`: walk the registry from the last
        position down to the first and close every entry that has been open
        for more than `LOCKER_OPEN_TIME` ms. Closing from the end keeps the
        positions still to be visited valid. */
    method SweepExpired(now: Millis)
      modifies this
      ensures openLockers == Unexpired(old(openLockers), now)
      ensures published == old(published) + ClosedLog(old(openLockers), now)
      ensures pins == Lowered(old(pins), old(openLockers), now)
    {
      ghost var s := openLockers;
      ghost var log := published;
      ghost var levels := pins;
      var i := |openLockers| - 1;
      while i >= 0
        invariant -1 <= i < |s|
        invariant openLockers == s[..i + 1] + Unexpired(s[i + 1..], now)
        invariant published == log + ClosedLog(s[i + 1..], now)
        invariant pins == Lowered(levels, s[i + 1..], now)
        decreases i + 1
      {
        assert s[i..][0] == s[i] && s[i..][1..] == s[i + 1..];
        assert openLockers[i] == s[i];
        if Expired(openLockers[i], now) {
          CloseLocker(i);
          assert openLockers == s[..i] + Unexpired(s[i + 1..], now);
        } else {
          assert s[..i + 1] == s[..i] + [s[i]];
        }
        i := i - 1;
      }
      assert s[0..] == s;
    }

    /** The message callback after decoding: a command that passes the gate
        opens its locker and publishes an "open" message on the locker's
        topic; any other command changes nothing and gets no reply. */
    method HandleCommand(cmd: Command, now: Millis)
      modifies this
      ensures Accepts(cmd) ==>
                openLockers == old(openLockers) + [LockerInfo(cmd.gpio, now, cmd.lockerId.value)] &&
                pins == old(pins)[PinOf(cmd.gpio) := High] &&
                published == old(published) + [Notice(cmd.lockerId.value, cmd.gpio, Opened)]
      ensures !Accepts(cmd) ==>
                openLockers == old(openLockers) && pins == old(pins) && published == old(published)
    {
      if Accepts(cmd) {
        var lockerId := cmd.lockerId.value;
        OpenLocker(cmd.gpio, lockerId, now);
        published := published + [Notice(lockerId, cmd.gpio, Opened)];
      }
    }
  }

  /** A locker opened at time 0 on gpio 13 is still open at 4999 and at
      exactly 5000, and is closed with one message at 5001; a malformed
      command leaves everything as it was; a second open of the same gpio
      adds a second entry. */
  method Scenario()
  {
    var d := new Device();
    d.HandleCommand(Command(Some("open"), Some("A1"), 13), 0);
    assert d.openLockers == [LockerInfo(13, 0, "A1")];
    assert d.published == [Notice("A1", 13, Opened)];

    d.HandleCommand(Command(None, Some("A2"), 14), 10);
    d.HandleCommand(Command(Some("open"), Some("A2"), 0), 10);
    assert d.openLockers == [LockerInfo(13, 0, "A1")];

    d.SweepExpired(4999);
    assert d.openLockers == [LockerInfo(13, 0, "A1")];
    d.SweepExpired(5000);
    assert d.openLockers == [LockerInfo(13, 0, "A1")];
    assert |d.published| == 1;
    d.SweepExpired(5001);
    assert d.openLockers == [];
    assert d.published == [Notice("A1", 13, Opened), Notice("A1", 13, Closed)];
    assert d.pins[13] == Low;

    d.HandleCommand(Command(Some("open"), Some("B"), 2), WORD - 1000);
    d.HandleCommand(Command(Some("unlock"), Some("C"), 2), WORD - 10);
    ghost var both := [LockerInfo(2, WORD - 1000, "B"), LockerInfo(2, WORD - 10, "C")];
    assert d.openLockers == both;
    assert Elapsed(4000, WORD - 1000) == 5000 && Elapsed(4001, WORD - 1000) == 5001;
    assert Unexpired(both[1..], 4000) == both[1..];
    d.SweepExpired(4000);
    assert d.openLockers == both;
    assert Unexpired(both[1..], 4001) == both[1..];
    d.SweepExpired(4001);
    assert d.openLockers == [LockerInfo(2, WORD - 10, "C")];
  }
}
