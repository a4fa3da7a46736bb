/**
 The receive ring shared by the e1000 device and kernel/drivers/e1000.c.

 The device follows section 3.2.6 of the Intel 8254x Software Developer's Manual: it fills the
 descriptor at RDH while RDH differs from RDT, first the buffer, then the descriptor.  The driver is
 interrupted by the device between any two of its steps: every method below that stands for driver
 code takes the device's events as a parameter, one list for each gap between two steps.
 */
module RxRing {
  import opened Memory

  const RING: int := 32
  const BUFFER_SIZE: int := 2048
  /** Long frames are discarded: the driver does not set the long-packet bit. */
  const MAX_FRAME: int := 1522

  type Packet = seq<byte>

  /** `length` and `status` of a receive descriptor; bit 0 of the status is "descriptor done". */
  datatype Descriptor = Descriptor(length: nat, status: nat)

  /** What the device may do next: start storing a frame from the wire, or report a stored frame. */
  datatype Event = Arrive(frame: Packet) | WriteBack

  /** The ring slot of the `j`th packet since initialisation. */
  function Slot(j: nat): (k: nat)
    ensures k < RING
  {
    j % RING
  }

  lemma SlotNext(j: nat)
    ensures Slot(j + 1) == (Slot(j) + 1) % RING
    ensures Slot(j + RING) == Slot(j)
  {
  }

  lemma SlotApart(i: nat, j: nat)
    requires i < j < i + RING
    ensures Slot(i) != Slot(j)
  {
  }

  /** A frame the device takes: not empty, and not long. */
  predicate Legal(f: Packet) {
    0 < |f| <= MAX_FRAME
  }

  // ---- One array of descriptors ----

  const DESCRIPTOR_SIZE: int := 16

  /** Where the driver has descriptor `i`: in the array that it got from kmalloc. */
  function DriverDescriptor(base: word, i: nat): int {
    base + DESCRIPTOR_SIZE * i
  }

  /** Where the device has it: RDBAL ignores the low four bits of the base address. */
  function DeviceDescriptor(base: word, i: nat): int {
    base / 16 * 16 + DESCRIPTOR_SIZE * i
  }

  /** The device and the driver mean the same memory by each descriptor. */
  ghost predicate OneRing(base: word) {
    forall i :: 0 <= i < RING ==> DeviceDescriptor(base, i) == DriverDescriptor(base, i)
  }

  /** They do exactly for an array on a 16-byte boundary; otherwise they have no descriptor in common. */
  lemma OneRingExact(base: word)
    ensures OneRing(base) <==> base % 16 == 0
    ensures !OneRing(base) ==> forall i, j :: 0 <= i < RING && 0 <= j < RING ==>
            DeviceDescriptor(base, i) != DriverDescriptor(base, j)
  {
    assert base % 16 != 0 ==> DeviceDescriptor(base, 0) != DriverDescriptor(base, 0);
    forall i, j | base % 16 != 0 && 0 <= i < RING && 0 <= j < RING
      ensures DeviceDescriptor(base, i) != DriverDescriptor(base, j)
    {
      assert DeviceDescriptor(base, i) == 16 * (base / 16 + i)
             && DriverDescriptor(base, j) == 16 * (base / 16 + j) + base % 16;
    }
  }

  /** The device writes the last eight bytes of a descriptor back: length, checksum, status, errors, special. */
  function WrittenBack(base: word, i: nat): int {
    DeviceDescriptor(base, i) + 8
  }

  /** The status byte that the driver tests. */
  function DriverStatus(base: word, j: nat): int {
    DriverDescriptor(base, j) + 12
  }

  ghost predicate Reports(base: word, i: nat, j: nat) {
    WrittenBack(base, i) <= DriverStatus(base, j) < WrittenBack(base, i) + 8
  }

  /** The device reaches a status byte of the driver exactly if the base is less than 4 off a 16-byte boundary. */
  lemma ReportsExact(base: word)
    ensures (exists i, j :: 0 <= i < RING && 0 <= j < RING && Reports(base, i, j)) <==> base % 16 < 4 || base % 16 >= 12
    ensures base % 16 == 0 ==> forall i, j :: 0 <= i < RING && 0 <= j < RING ==>
              (Reports(base, i, j) <==> i == j) && (i == j ==> DriverStatus(base, j) == WrittenBack(base, i) + 4)
  {
    var q, m := base / 16, base % 16;
    forall i, j | 0 <= i < RING && 0 <= j < RING
      ensures DriverStatus(base, j) - WrittenBack(base, i) == 16 * (j - i) + m + 4
    {
      assert base == 16 * q + m;
    }
    if m < 4 { assert Reports(base, 0, 0); }
    if m >= 12 { assert Reports(base, 1, 0); }
  }

  /** Memory after the device wrote descriptors back: `ws` gives the index and the eight bytes of each. */
  ghost function AfterWriteBacks(m: seq<byte>, base: word, ws: seq<(nat, seq<byte>)>): (r: seq<byte>)
    requires base + DESCRIPTOR_SIZE * RING <= |m|
    requires forall k :: 0 <= k < |ws| ==> ws[k].0 < RING && |ws[k].1| == 8
    ensures |r| == |m|
  {
    if ws == [] then m
    else
      var before, a := AfterWriteBacks(m, base, ws[..|ws| - 1]), WrittenBack(base, ws[|ws| - 1].0);
      before[..a] + ws[|ws| - 1].1 + before[a + 8..]
  }

  /** With such a base the driver never sees a packet: its status bytes stay as the set-up left them. */
  lemma {:induction false} NothingSeen(m: seq<byte>, base: word, ws: seq<(nat, seq<byte>)>, j: nat)
    requires base + DESCRIPTOR_SIZE * RING <= |m| && 4 <= base % 16 < 12 && j < RING
    requires forall k :: 0 <= k < |ws| ==> ws[k].0 < RING && |ws[k].1| == 8
    ensures AfterWriteBacks(m, base, ws)[DriverStatus(base, j)] == m[DriverStatus(base, j)]
  {
    if ws != [] {
      NothingSeen(m, base, ws[..|ws| - 1], j);
      ReportsExact(base);
      assert !Reports(base, ws[|ws| - 1].0, j);
    }
  }

  // ---- The ring ----

  function Cut(p: Packet, max: nat): (r: Packet)
    ensures |r| == (if |p| <= max then |p| else max) && r <= p
  {
    if |p| <= max then p else p[..max]
  }

  /** The packets `rs` are the first of `ps`, in order, each once and cut to its limit. */
  ghost predicate InOrder(rs: seq<Packet>, ps: seq<Packet>, limits: seq<nat>) {
    && |rs| == |limits| && |rs| <= |ps|
    && forall k :: 0 <= k < |rs| ==> rs[k] == Cut(ps[k], limits[k])
  }

  lemma InOrderKept(rs: seq<Packet>, ps: seq<Packet>, qs: seq<Packet>, limits: seq<nat>)
    requires InOrder(rs, ps, limits) && ps <= qs
    ensures InOrder(rs, qs, limits)
  {
  }

  lemma InOrderNext(rs: seq<Packet>, ps: seq<Packet>, limits: seq<nat>, p: Packet, limit: nat)
    requires InOrder(rs, ps, limits) && |rs| < |ps| && p == Cut(ps[|rs|], limit)
    ensures InOrder(rs + [p], ps, limits + [limit])
  {
  }

  class Ring {
    // Registers and memory shared with the device; `base` is the address of `descs`.
    const base: word
    var rdh: nat
    var rdt: nat
    const descs: array<Descriptor>
    const buffers: array<Packet>
    // The device.
    var storing: bool
    var frame: Packet
    // The driver.
    var rxCur: nat
    // History: the packets reported by the device, the calls that returned one, and how far the
    // driver has come with resetting descriptors, moving rx_cur and moving the tail.
    ghost var accepted: seq<Packet>
    ghost var returned: seq<Packet>
    ghost var limits: seq<nat>
    ghost var taken: nat
    ghost var cursor: nat
    ghost var tail: nat

    /** Slot `j` holds the unread packet `j`. */
    ghost predicate Holds(j: nat)
      reads this`accepted, descs, buffers
    {
      && descs.Length == RING == buffers.Length && j < |accepted|
      && descs[Slot(j)].status % 2 == 1
      && descs[Slot(j)].length == |accepted[j]| <= |buffers[Slot(j)]|
      && buffers[Slot(j)][..|accepted[j]|] == accepted[j]
    }

    ghost predicate Cleared(j: nat)
      reads descs
    {
      descs.Length == RING && descs[Slot(j)].status == 0
    }

    /** Kept by every step of the device and of the driver, wherever `rxCur` is. */
    ghost predicate Shared()
      reads this`rdh, this`rdt, this`storing, this`frame
      reads this`accepted, this`taken, this`cursor, this`tail, descs, buffers
    {
      && OneRing(base) && descs.Length == RING == buffers.Length
      && tail <= cursor <= taken <= |accepted| <= tail + RING - 1 && taken <= tail + 1
      && rdh == Slot(|accepted|) && rdt == Slot(tail + RING - 1)
      && (forall k :: 0 <= k < RING ==> |buffers[k]| == BUFFER_SIZE)
      && (forall j :: taken <= j < |accepted| ==> Holds(j))
      && (forall j :: |accepted| <= j < taken + RING ==> Cleared(j))
      && (storing ==> |accepted| < tail + RING - 1 && Legal(frame)
                      && buffers[Slot(|accepted|)][..|frame|] == frame)
    }

    ghost predicate Inv()
      reads this`rdh, this`rdt, this`storing, this`frame, this`rxCur
      reads this`accepted, this`taken, this`cursor, this`tail, descs, buffers
    {
      Shared() && rxCur == Slot(cursor)
    }

    /** Between two calls of the driver; the calls returned the packets in order, each once, cut to their limits. */
    ghost predicate Valid()
      reads this, descs, buffers
    {
      && Inv() && tail == cursor == taken == |returned|
      && InOrder(returned, accepted, limits)
    }

    /** The tail register stays one slot behind rx_cur. */
    lemma TailBehind()
      requires Valid()
      ensures rxCur == (rdt + 1) % RING
    {
      SlotNext(tail + RING - 1);
      SlotNext(tail);
    }

    /**
     The ring set-up of e1000_driver_init, for descriptors at `base`.  It leaves rx_cur as the last use of
     the driver left it, so the protocol starts well exactly for an aligned base and a cursor back at 0.
     */
    constructor (base: word, oldCur: nat)
      requires oldCur < RING
      ensures Valid() <==> base % 16 == 0 && oldCur == 0
      ensures base % 16 == 0 ==> Shared()
      ensures accepted == [] && returned == [] && taken == tail == 0 && fresh(descs) && fresh(buffers)
      ensures this.base == base && rxCur == oldCur && rdh == 0 && rdt == 31 && !storing
      ensures descs.Length == buffers.Length == 32 && forall k :: 0 <= k < 32 ==> |buffers[k]| == 2048
    {
      this.base := base;
      descs := new Descriptor[RING](_ => Descriptor(0, 0));
      buffers := new Packet[RING](_ => seq(BUFFER_SIZE, _ => 0));
      rdh, rdt, rxCur := 0, RING - 1, oldCur;
      storing, frame := false, [];
      accepted, returned, limits, taken, cursor, tail := [], [], [], 0, 0, 0;
      new;
      OneRingExact(base);
    }

    /**
     The device never touches the slots of unread packets, nor anything of the driver's.  It drops a
     legal frame only while it is busy or all 31 descriptors it was given are in use.
     */
    method DeviceStep(e: Event)
      requires Shared()
      modifies this`rdh, this`storing, this`frame, this`accepted, descs, buffers
      ensures Shared()
      ensures accepted == if e.WriteBack? && old(storing) then old(accepted) + [old(frame)] else old(accepted)
      ensures match e
              case WriteBack => !storing
              case Arrive(f) =>
                if !old(storing) && |accepted| < tail + 31 && 1 <= |f| <= 1522 then storing && frame == f
                else storing == old(storing) && frame == old(frame)
      ensures forall j :: taken <= j < |old(accepted)| ==>
                descs[Slot(j)] == old(descs[Slot(j)]) && buffers[Slot(j)] == old(buffers[Slot(j)])
    {
      hide Slot;
      match e {
        case Arrive(f) =>
          FullWhen(|accepted|, tail);
          if !storing && rdh != rdt && Legal(f) {
            SlotsUntouched(|accepted|);
            buffers[rdh] := f + buffers[rdh][|f|..];
            storing, frame := true, f;
            forall j | taken <= j < |accepted| ensures Holds(j) { assert old(Holds(j)) && Slot(j) != rdh; }
            forall j | |accepted| <= j < taken + RING ensures Cleared(j) { assert old(Cleared(j)); }
          }
        case WriteBack =>
          if storing {
            SlotsUntouched(|accepted|);
            SlotNext(|accepted|);
            descs[rdh] := Descriptor(|frame|, 3);
            rdh := (rdh + 1) % RING;
            accepted := accepted + [frame];
            storing := false;
            forall j | taken <= j < |accepted| ensures Holds(j) {
              if j < |accepted| - 1 { assert old(Holds(j)); }
            }
            forall j | |accepted| <= j < taken + RING ensures Cleared(j) {
              assert old(Cleared(j)) && Slot(j) != old(rdh);
            }
          }
      }
    }

    /** The device at work while the driver is between two steps. */
    method Device(events: seq<Event>)
      requires Shared()
      modifies this`rdh, this`storing, this`frame, this`accepted, descs, buffers
      ensures Shared() && old(accepted) <= accepted
      ensures forall j :: taken <= j < |old(accepted)| ==>
                descs[Slot(j)] == old(descs[Slot(j)]) && buffers[Slot(j)] == old(buffers[Slot(j)])
    {
      for i := 0 to |events|
        invariant Shared() && old(accepted) <= accepted
        invariant forall j :: taken <= j < |old(accepted)| ==>
                    descs[Slot(j)] == old(descs[Slot(j)]) && buffers[Slot(j)] == old(buffers[Slot(j)])
      {
        DeviceStep(events[i]);
      }
    }

    /** The copying loop, of the oldest unread packet. */
    method CopyOut(buffer: array<byte>, length: nat, device: nat -> seq<Event>)
      requires Inv() && tail == cursor == taken < |accepted| && length <= |accepted[taken]| && length <= buffer.Length
      modifies this`rdh, this`storing, this`frame, this`accepted, descs, buffers, buffer
      ensures Inv() && old(accepted) <= accepted
      ensures buffer[..length] == accepted[taken][..length] && buffer[length..] == old(buffer[length..])
    {
      hide Slot;
      ghost var packet := accepted[taken];
      var i := 0;
      while i < length
        invariant 0 <= i <= length
        invariant Inv() && old(accepted) <= accepted
        invariant buffer[..i] == packet[..i] && buffer[i..] == old(buffer[i..])
      {
        Device(device(2 + i));
        assert Holds(taken);
        buffer[i] := buffers[rxCur][i];
        i := i + 1;
      }
    }

    /** `status = 0` for the packet just read. */
    method ResetDescriptor()
      requires Inv() && tail == cursor == taken < |accepted|
      modifies this`taken, descs
      ensures Inv() && taken == old(taken) + 1
      ensures forall j :: taken <= j < |accepted| ==> descs[Slot(j)] == old(descs[Slot(j)])
    {
      hide Slot;
      SlotsUntouched(taken);
      SlotNext(taken);
      descs[rxCur] := descs[rxCur].(status := 0);
      taken := taken + 1;
      forall j | taken <= j < |accepted| ensures Holds(j) {
        assert old(Holds(j)) && Slot(j) != rxCur;
      }
      forall j | |accepted| <= j < taken + RING ensures Cleared(j) {
        if j < taken + RING - 1 { assert old(Cleared(j)); }
      }
    }

    /** `rx_cur = (rx_cur + 1) % 32`. */
    method Advance()
      requires Inv() && tail == cursor == taken - 1
      modifies this`rxCur, this`cursor
      ensures Inv() && cursor == old(cursor) + 1
    {
      hide Slot;
      SlotNext(cursor);
      rxCur := (rxCur + 1) % RING;
      cursor := cursor + 1;
      forall j | taken <= j < |accepted| ensures Holds(j) { assert old(Holds(j)); }
      forall j | |accepted| <= j < taken + RING ensures Cleared(j) { assert old(Cleared(j)); }
    }

    /** The tail register gets the slot just read: `rdt` stays one slot behind `rx_cur`. */
    method MoveTail(oldCur: nat)
      requires Inv() && tail + 1 == cursor == taken && oldCur == Slot(tail)
      modifies this`rdt, this`tail
      ensures Inv() && tail == cursor && rxCur == (rdt + 1) % RING
    {
      hide Slot;
      SlotNext(tail);
      rdt := oldCur;
      tail := tail + 1;
      SlotNext(tail + RING - 1);
      SlotNext(tail);
      forall j | taken <= j < |accepted| ensures Holds(j) { assert old(Holds(j)); }
      forall j | |accepted| <= j < taken + RING ensures Cleared(j) { assert old(Cleared(j)); }
    }

    /** The driver gives the slot just read back to the device; at no step does the device touch an unread packet. */
    method HandBack(device: nat -> seq<Event>, n: nat)
      requires Inv() && tail == cursor == taken < |accepted|
      modifies this`rdh, this`rdt, this`storing, this`frame, this`rxCur, this`accepted, this`taken, this`cursor
      modifies this`tail, descs, buffers
      ensures Inv() && tail == cursor == taken == old(taken) + 1 && old(accepted) <= accepted
      ensures rxCur == (rdt + 1) % RING
      ensures forall j :: taken <= j < |old(accepted)| ==>
                descs[Slot(j)] == old(descs[Slot(j)]) && buffers[Slot(j)] == old(buffers[Slot(j)])
    {
      hide Slot;
      Device(device(n));
      ResetDescriptor();
      Device(device(n + 1));
      var oldCur := rxCur;
      Advance();
      Device(device(n + 2));
      MoveTail(oldCur);
    }

    /** The oldest unread packet is copied out and its slot given back. */
    method Deliver(buffer: array<byte>, maxLength: word, device: nat -> seq<Event>) returns (r: nat)
      requires Inv() && tail == cursor == taken < |accepted| && maxLength <= buffer.Length
      modifies this`rdh, this`rdt, this`storing, this`frame, this`rxCur, this`accepted
      modifies this`taken, this`cursor, this`tail, descs, buffers, buffer
      ensures Inv() && tail == cursor == taken == old(taken) + 1 && old(accepted) <= accepted
      ensures r <= buffer.Length && buffer[r..] == old(buffer[r..])
      ensures buffer[..r] == Cut(old(accepted[taken]), maxLength)
    {
      hide Slot, Shared, Holds;
      ghost var packet := accepted[taken];
      Device(device(1));
      var length := PacketLength(taken);
      if length > maxLength { length := maxLength; }
      CopyOut(buffer, length, device);
      HandBack(device, 2 + length);
      assert buffer[..length] == Cut(packet, maxLength);
      return length;
    }

    /**
     e1000_driver_receive, with `device(n)` happening before its `n`th step.  Whatever the device does,
     the call returns the oldest packet not returned yet, cut to `maxLength`, or nothing at all.
     */
    method Receive(buffer: array<byte>, maxLength: word, device: nat -> seq<Event>) returns (r: nat)
      requires Valid() && maxLength <= buffer.Length
      modifies this, descs, buffers, buffer
      ensures Valid() && old(accepted) <= accepted
      ensures |old(accepted)| > |old(returned)| ==> returned != old(returned)
      ensures r <= buffer.Length && buffer[r..] == old(buffer[r..])
      ensures returned != old(returned) ==>
                && |old(returned)| < |accepted|
                && var packet := accepted[|old(returned)|];
                   r == (if |packet| <= maxLength then |packet| else maxLength) && buffer[..r] == packet[..r]
      ensures if returned == old(returned) then r == 0 && limits == old(limits)
              else returned == old(returned) + [buffer[..r]] && limits == old(limits) + [maxLength as nat]
    {
      hide Slot, Shared, InOrder;
      ghost var before := accepted;
      Device(device(0));
      InOrderKept(returned, before, accepted, limits);
      var done := PacketReady(taken);
      if !done {
        return 0;
      }
      before := accepted;
      r := Deliver(buffer, maxLength, device);
      InOrderKept(returned, before, accepted, limits);
      InOrderNext(returned, accepted, limits, buffer[..r], maxLength);
      returned, limits := returned + [buffer[..r]], limits + [maxLength as nat];
    }

    /** The status test, with rx_cur at the slot of packet `j`. */
    method PacketReady(ghost j: nat) returns (done: bool)
      requires Shared() && taken <= j < taken + RING && rxCur == Slot(j)
      ensures done <==> j < |accepted|
    {
      hide Slot;
      done := descs[rxCur].status % 2 == 1;
      if j < |accepted| { assert Holds(j); } else { assert Cleared(j); }
    }

    method PacketLength(ghost j: nat) returns (length: nat)
      requires Shared() && taken <= j < |accepted| && rxCur == Slot(j)
      ensures length == |accepted[j]|
    {
      hide Slot;
      assert Holds(j);
      length := descs[rxCur].length;
    }

    lemma FullWhen(a: nat, t: nat)
      requires t <= a <= t + RING - 1
      ensures Slot(a) == Slot(t + RING - 1) <==> a == t + RING - 1
    {
    }

    /** The slot `a` is not the slot of any packet from `taken` to `taken + 31` other than `a`. */
    lemma SlotsUntouched(a: nat)
      requires taken <= a < taken + RING
      ensures forall j: nat :: taken <= j < taken + RING && j != a ==> Slot(j) != Slot(a)
    {
      forall j: nat | taken <= j < taken + RING && j != a ensures Slot(j) != Slot(a) {
        if j < a { SlotApart(j, a); } else { SlotApart(a, j); }
      }
    }
  }

  /**
   The set-up repeated with rx_cur at `oldCur`, then the frames `fs` from the wire: the driver sees a packet
   only once more than `oldCur` have arrived, and then it is not the oldest unless `oldCur` is 0.
   */
  method AfterRestart(base: word, oldCur: nat, fs: seq<Packet>) returns (ring: Ring, done: bool, length: nat)
    requires base % 16 == 0 && oldCur < RING && |fs| < RING && forall k :: 0 <= k < |fs| ==> Legal(fs[k])
    ensures fresh(ring) && ring.Shared() && ring.accepted == fs
    ensures done <==> oldCur < |fs|
    ensures done ==> length <= |ring.buffers[oldCur]| && ring.buffers[oldCur][..length] == fs[oldCur]
  {
    hide Slot;
    ring := new Ring(base, oldCur);
    for i := 0 to |fs|
      invariant ring.Shared() && ring.taken == ring.tail == 0 && ring.rxCur == oldCur && !ring.storing
      invariant fresh(ring.descs) && fresh(ring.buffers) && ring.accepted == fs[..i]
    {
      assert Legal(fs[i]);
      ring.DeviceStep(Arrive(fs[i]));
      ring.DeviceStep(WriteBack);
    }
    SlotOf(oldCur);
    done := ring.PacketReady(oldCur);
    length := 0;
    assert done ==> ring.Holds(oldCur);
    if done { length := ring.PacketLength(oldCur); }
  }

  lemma SlotOf(j: nat)
    requires j < RING
    ensures Slot(j) == j
  {
  }
}
