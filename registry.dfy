/** The open-locker registry as values: what one locker entry is, when it
    has expired, and what one expiry sweep leaves behind, publishes and
    writes to the pins. The device methods are proved against these
    functions; the lemmas below state what a sweep guarantees. */
module Registry {

  import opened Clock
  import opened Optional
  import opened Responses

  /** One unlocked compartment (`struct LockerInfo`). */
  datatype LockerInfo = LockerInfo(gpio: int, openedAt: Millis, lockerId: string)

  /** The level last written to an output pin with `digitalWrite`. */
  datatype Level = Low | High

  /** A physical pin number: `pinMode` and `digitalWrite` take their pin
      argument as `uint8_t`. */
  type Pin = p: int | 0 <= p < 256

  /** The pin an `int gpio` reaches when it is passed to `pinMode` or
      `digitalWrite`: the conversion to `uint8_t`, which keeps the value
      modulo 2^8. */
  function PinOf(gpio: int): (pin: Pin)
    ensures (gpio - pin) % 256 == 0
    ensures 0 <= gpio < 256 ==> pin == gpio
  {
    gpio % 256
  }

  /** Distinct gpio numbers can drive one pin: 13, 269 and -243 all reach
      pin 13, and 258 and -254 reach pin 2. */
  lemma PinAliasing()
    ensures PinOf(13) == PinOf(269) == PinOf(-243) == 13
    ensures PinOf(258) == PinOf(-254) == 2
  {
  }

  /** The test in the sweep: strictly more than `LOCKER_OPEN_TIME` ms have
      passed since the locker opened, measured in 32-bit unsigned time. */
  predicate Expired(e: LockerInfo, now: Millis): (expired: bool)
    ensures expired <==> forall k :: 0 <= k <= LOCKER_OPEN_TIME ==> Advance(e.openedAt, k) != now
  {
    ElapsedWindow(now, e.openedAt);
    Elapsed(now, e.openedAt) > LOCKER_OPEN_TIME
  }

  /** The message published when entry `e` is re-locked. */
  function ClosedNotice(e: LockerInfo): (p: Publication)
    ensures p.payload.status == "closed" && p.payload.success
    ensures p.payload.lockerId == e.lockerId && p.payload.gpio == e.gpio
    ensures LockerIdOfTopic(p.topic) == Some(e.lockerId)
  {
    Notice(e.lockerId, e.gpio, Closed)
  }

  /** `vector::erase` at position `index`: the entry there is gone, those
      before it stay where they were, those after it move down by one. */
  function Erase(s: seq<LockerInfo>, index: nat): (r: seq<LockerInfo>)
    requires index < |s|
    ensures |r| == |s| - 1
    ensures forall k :: 0 <= k < index ==> r[k] == s[k]
    ensures forall k :: index <= k < |r| ==> r[k] == s[k + 1]
  {
    s[..index] + s[index + 1..]
  }

  /** The entries a sweep at `now` keeps, in their original order. */
  function Unexpired(s: seq<LockerInfo>, now: Millis): (r: seq<LockerInfo>)
    ensures |r| <= |s|
    ensures forall k :: 0 <= k < |r| ==> !Expired(r[k], now)
  {
    if s == [] then []
    else (if Expired(s[0], now) then [] else [s[0]]) + Unexpired(s[1..], now)
  }

  /** The messages a sweep at `now` publishes: one per expired entry, the
      highest position first, because the sweep walks the registry from
      its end towards its start. */
  function ClosedLog(s: seq<LockerInfo>, now: Millis): (log: seq<Publication>)
    ensures |log| <= |s|
    ensures forall p :: p in log ==> p.payload.status == "closed" && p.payload.success
  {
    if s == [] then []
    else ClosedLog(s[1..], now) + (if Expired(s[0], now) then [ClosedNotice(s[0])] else [])
  }

  /** The pin levels after a sweep at `now`: the pin of every expired entry
      has been written LOW, highest position first. */
  function Lowered(pins: map<Pin, Level>, s: seq<LockerInfo>, now: Millis): (after: map<Pin, Level>)
    ensures forall g :: g in pins ==> g in after
    ensures forall g :: g in after && after[g] == High ==> g in pins && pins[g] == High
  {
    if s == [] then pins
    else
      var p := Lowered(pins, s[1..], now);
      if Expired(s[0], now) then p[PinOf(s[0].gpio) := Low] else p
  }

  /** After a sweep, an entry remains exactly when it was there before and
      has not expired: nothing expired survives, nothing fresh is closed. */
  lemma {:induction false} UnexpiredMembers(s: seq<LockerInfo>, now: Millis, e: LockerInfo)
    ensures e in Unexpired(s, now) <==> e in s && !Expired(e, now)
  {
    if s != [] {
      UnexpiredMembers(s[1..], now, e);
      assert e in s <==> e == s[0] || e in s[1..];
    }
  }

  /** Sweeping two runs of entries one after the other keeps the survivors
      of each run in place: the sweep preserves relative order. */
  lemma {:induction false} UnexpiredAppend(a: seq<LockerInfo>, b: seq<LockerInfo>, now: Millis)
    ensures Unexpired(a + b, now) == Unexpired(a, now) + Unexpired(b, now)
  {
    if a == [] {
      assert a + b == b;
    } else {
      assert (a + b)[0] == a[0];
      assert (a + b)[1..] == a[1..] + b;
      UnexpiredAppend(a[1..], b, now);
    }
  }

  /** The close messages for a later run of entries are published before
      those for an earlier run: closes go in descending position order. */
  lemma {:induction false} ClosedLogAppend(a: seq<LockerInfo>, b: seq<LockerInfo>, now: Millis)
    ensures ClosedLog(a + b, now) == ClosedLog(b, now) + ClosedLog(a, now)
  {
    if a == [] {
      assert a + b == b;
    } else {
      assert (a + b)[0] == a[0];
      assert (a + b)[1..] == a[1..] + b;
      ClosedLogAppend(a[1..], b, now);
    }
  }

  /** The survivors and the close messages of a sweep together number
      exactly the entries swept. */
  lemma {:induction false} SweepAccounts(s: seq<LockerInfo>, now: Millis)
    ensures |Unexpired(s, now)| + |ClosedLog(s, now)| == |s|
  {
    if s != [] {
      SweepAccounts(s[1..], now);
    }
  }

  /** A message is published by the sweep exactly when it is the close
      message of an entry that has expired. */
  lemma {:induction false} ClosedLogMembers(s: seq<LockerInfo>, now: Millis, p: Publication)
    ensures p in ClosedLog(s, now) <==> exists e :: e in s && Expired(e, now) && p == ClosedNotice(e)
  {
    if s != [] {
      ClosedLogMembers(s[1..], now, p);
      if p in ClosedLog(s, now) && !(p in ClosedLog(s[1..], now)) {
        assert Expired(s[0], now) && p == ClosedNotice(s[0]);
      }
      if exists e :: e in s && Expired(e, now) && p == ClosedNotice(e) {
        var e :| e in s && Expired(e, now) && p == ClosedNotice(e);
        if e != s[0] {
          assert e in s[1..];
        }
      }
    }
  }

  /** A sweep over entries none of which has expired changes nothing:
      every entry stays, nothing is published, no pin is written. */
  lemma {:induction false} SweepOfFreshIsNoop(pins: map<Pin, Level>, s: seq<LockerInfo>, now: Millis)
    requires forall e :: e in s ==> !Expired(e, now)
    ensures Unexpired(s, now) == s
    ensures ClosedLog(s, now) == []
    ensures Lowered(pins, s, now) == pins
  {
    if s != [] {
      assert s[0] in s;
      SweepOfFreshIsNoop(pins, s[1..], now);
      assert [s[0]] + s[1..] == s;
    }
  }

  /** A second sweep at the same time closes nothing and keeps everything. */
  lemma SweepIdempotent(pins: map<Pin, Level>, s: seq<LockerInfo>, now: Millis)
    ensures Unexpired(Unexpired(s, now), now) == Unexpired(s, now)
    ensures ClosedLog(Unexpired(s, now), now) == []
    ensures Lowered(pins, Unexpired(s, now), now) == pins
  {
    forall e | e in Unexpired(s, now)
      ensures !Expired(e, now)
    {
      UnexpiredMembers(s, now, e);
    }
    SweepOfFreshIsNoop(pins, Unexpired(s, now), now);
  }

  /** The pins a sweep writes: the pin of every expired entry reads LOW
      afterwards; every other pin keeps its level. */
  lemma {:induction false} LoweredAt(pins: map<Pin, Level>, s: seq<LockerInfo>, now: Millis, g: Pin)
    ensures g in Lowered(pins, s, now) <==> g in pins || exists e :: e in s && Expired(e, now) && PinOf(e.gpio) == g
    ensures (exists e :: e in s && Expired(e, now) && PinOf(e.gpio) == g) ==> Lowered(pins, s, now)[g] == Low
    ensures g in pins && !(exists e :: e in s && Expired(e, now) && PinOf(e.gpio) == g) ==>
              Lowered(pins, s, now)[g] == pins[g]
  {
    if s != [] {
      LoweredAt(pins, s[1..], now, g);
      assert forall e :: e in s <==> e == s[0] || e in s[1..];
    }
  }

  /** The pins last written HIGH. */
  function HighPins(pins: map<Pin, Level>): (high: set<Pin>)
  {
    set g | g in pins && pins[g] == High
  }

  /** The pins the registry's entries drive. */
  function OpenPins(s: seq<LockerInfo>): (open: set<Pin>)
  {
    set e | e in s :: PinOf(e.gpio)
  }

  /** The pin levels tell which lockers are open: a pin reads HIGH exactly
      when some registry entry drives it. */
  predicate PinsReflect(s: seq<LockerInfo>, pins: map<Pin, Level>)
  {
    HighPins(pins) == OpenPins(s)
  }

  /** No two entries drive the same pin. */
  predicate DistinctPins(s: seq<LockerInfo>)
  {
    forall i, j :: 0 <= i < j < |s| ==> PinOf(s[i].gpio) != PinOf(s[j].gpio)
  }

  /** Opening (write HIGH, append) keeps the pins in step with the registry. */
  lemma OpenKeepsPinsReflect(s: seq<LockerInfo>, pins: map<Pin, Level>, e: LockerInfo)
    requires PinsReflect(s, pins)
    ensures PinsReflect(s + [e], pins[PinOf(e.gpio) := High])
  {
    assert HighPins(pins[PinOf(e.gpio) := High]) == HighPins(pins) + {PinOf(e.gpio)};
    assert forall x :: x in s + [e] <==> x in s || x == e;
    assert OpenPins(s + [e]) == OpenPins(s) + {PinOf(e.gpio)};
  }

  /** Closing one entry (write LOW, erase) keeps the pins in step with the
      registry, provided no other entry drives the same pin. */
  lemma EraseKeepsPinsReflect(s: seq<LockerInfo>, pins: map<Pin, Level>, index: nat)
    requires index < |s|
    requires DistinctPins(s) && PinsReflect(s, pins)
    ensures PinsReflect(Erase(s, index), pins[PinOf(s[index].gpio) := Low])
  {
    var r := Erase(s, index);
    var g := PinOf(s[index].gpio);
    assert HighPins(pins[g := Low]) == HighPins(pins) - {g};
    forall x | x in r
      ensures x in s && PinOf(x.gpio) != g
    {
      var k :| 0 <= k < |r| && r[k] == x;
      var j := if k < index then k else k + 1;
      assert s[j] == x;
    }
    forall x | x in s && PinOf(x.gpio) != g
      ensures x in r
    {
      var j :| 0 <= j < |s| && s[j] == x;
      var k := if j < index then j else j - 1;
      assert r[k] == x;
    }
    assert OpenPins(r) == OpenPins(s) - {g};
  }

  /** With distinct pins, an entry is identified by its pin. */
  lemma SamePinSameEntry(s: seq<LockerInfo>, a: LockerInfo, b: LockerInfo)
    requires DistinctPins(s) && a in s && b in s && PinOf(a.gpio) == PinOf(b.gpio)
    ensures a == b
  {
  }

  /** A whole sweep keeps the pins in step with the registry, provided no
      two entries drive the same pin: exactly the pins of the survivors
      still read HIGH. */
  lemma SweepKeepsPinsReflect(s: seq<LockerInfo>, pins: map<Pin, Level>, now: Millis)
    requires DistinctPins(s) && PinsReflect(s, pins)
    ensures PinsReflect(Unexpired(s, now), Lowered(pins, s, now))
  {
    var after := Lowered(pins, s, now);
    forall g
      ensures g in HighPins(after) <==> g in OpenPins(Unexpired(s, now))
    {
      LoweredAt(pins, s, now, g);
      if exists e :: e in s && Expired(e, now) && PinOf(e.gpio) == g {
        var e :| e in s && Expired(e, now) && PinOf(e.gpio) == g;
        if g in OpenPins(Unexpired(s, now)) {
          var x :| x in Unexpired(s, now) && PinOf(x.gpio) == g;
          UnexpiredMembers(s, now, x);
          SamePinSameEntry(s, e, x);
          assert false;
        }
      } else {
        if g in HighPins(after) {
          assert g in HighPins(pins);
          var x :| x in s && PinOf(x.gpio) == g;
          UnexpiredMembers(s, now, x);
        }
        if g in OpenPins(Unexpired(s, now)) {
          var x :| x in Unexpired(s, now) && PinOf(x.gpio) == g;
          UnexpiredMembers(s, now, x);
          assert g in OpenPins(s);
        }
      }
    }
  }

  /** Without distinct gpios the pins fall out of step: open gpio 13 twice,
      close the first entry, and the second entry is still registered while
      its pin already reads LOW. */
  lemma DuplicateOpenDesynchronisesPins()
    ensures var s := [LockerInfo(13, 0, "A"), LockerInfo(13, 100, "B")];
            var pins := map[13 := High];
            PinsReflect(s, pins) && !DistinctPins(s) &&
            !PinsReflect(Erase(s, 0), pins[PinOf(s[0].gpio) := Low])
  {
    var s := [LockerInfo(13, 0, "A"), LockerInfo(13, 100, "B")];
    var pins := map[13 := High];
    assert HighPins(pins) == {13};
    assert s[0] in s && forall x :: x in s ==> PinOf(x.gpio) == 13;
    assert OpenPins(s) == {13};
    assert PinOf(s[0].gpio) == PinOf(s[1].gpio);
    assert s[1] in Erase(s, 0);
    assert 13 in OpenPins(Erase(s, 0));
    assert HighPins(pins[13 := Low]) == {};
  }

  /** Two different gpio numbers that reach one pin behave like a duplicate
      open: 13 and 269 both drive pin 13, so closing the first entry writes
      LOW under the second. */
  lemma AliasedGpiosDesynchronisePins()
    ensures var s := [LockerInfo(13, 0, "A"), LockerInfo(269, 100, "B")];
            var pins := map[13 := High];
            s[0].gpio != s[1].gpio && PinsReflect(s, pins) && !DistinctPins(s) &&
            !PinsReflect(Erase(s, 0), pins[PinOf(s[0].gpio) := Low])
  {
    var s := [LockerInfo(13, 0, "A"), LockerInfo(269, 100, "B")];
    var pins := map[13 := High];
    assert HighPins(pins) == {13};
    assert s[0] in s && forall x :: x in s ==> PinOf(x.gpio) == 13;
    assert OpenPins(s) == {13};
    assert PinOf(s[0].gpio) == PinOf(s[1].gpio);
    assert s[1] in Erase(s, 0);
    assert 13 in OpenPins(Erase(s, 0));
    assert HighPins(pins[13 := Low]) == {};
  }
}
