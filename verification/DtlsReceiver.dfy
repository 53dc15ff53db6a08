/** The receiving side of the DTLS handshake transport, in place. */
module DtlsReceiver {
  import opened Common
  import opened DtlsFormat
  import opened DtlsReassembly
  import opened DtlsReceive

  ghost function SlotOf(h: HmFragment?): Slot
    requires h != null ==> h.received <= Upto(h.data.Length)
    reads h, if h == null then {} else {h.data}
  {
    if h == null then Empty else Partial(h.typ, h.number, h.msgLen, h.Got())
  }

  lemma EnteredView(r: Recv, f: Fragment)
    requires RingOk(r) && Fits(f) && InWindow(r, f) && r.slots[f.number % MAX_FLIGHT] == Empty
    ensures Entered(r, f) == r.(slots := r.slots[f.number % MAX_FLIGHT := Partial(f.typ, f.number, f.msgLen, map[])])
    ensures |r.slots| == MAX_FLIGHT
  {
  }

  lemma FilledView(r: Recv, f: Fragment)
    requires RingOk(r) && r.slots[f.number % MAX_FLIGHT].Partial?
    requires f.off + |f.body| <= r.slots[f.number % MAX_FLIGHT].len
    ensures |r.slots| == MAX_FLIGHT
    ensures Filled(r, f) == r.(slots := r.slots[f.number % MAX_FLIGHT := Copied(r.slots[f.number % MAX_FLIGHT], f)])
  {
  }

  lemma EnteredSlot(r: Recv, f: Fragment)
    requires RingOk(r) && Fits(f) && InWindow(r, f) && Compatible(r, f)
    ensures var s := Entered(r, f).slots[f.number % MAX_FLIGHT]; s.Partial? && s.typ == f.typ && s.len == f.msgLen
  {
  }

  lemma WholeStays(r: Recv, f: Fragment)
    requires RingOk(r) && Whole(r.slots[f.number % MAX_FLIGHT])
    requires f.off + |f.body| <= r.slots[f.number % MAX_FLIGHT].len
    ensures Filled(r, f) == r
  {
  }

  lemma ViewFlag(r: Recv)
    requires RingOk(r)
    ensures RingOk(r.(hasMessage := true))
  {
    var r' := r.(hasMessage := true);
    assert forall j | 0 <= j < MAX_FLIGHT && r'.slots[j].Partial? :: SlotOk(r, j) && SlotOk(r', j);
  }

  class Receiver {
    const incoming: array<HmFragment?>
    var readSeq: nat
    var hasMessage: bool
    var epoch: nat
    var nullCipher: bool
    var hasChangeCipherSpec: bool
    ghost var view: Recv
    ghost var Repr: set<object>

    ghost predicate Valid()
      reads this, Repr
    {
      && this in Repr && incoming in Repr && incoming.Length == MAX_FLIGHT
      && (forall i | 0 <= i < MAX_FLIGHT && incoming[i] != null :: Owned(i))
      && (forall i, j | 0 <= i < j < MAX_FLIGHT && incoming[i] != null && incoming[j] != null ::
            incoming[i].Repr !! incoming[j].Repr)
      && RingOk(view)
      && view.readSeq == readSeq && view.hasMessage == hasMessage && view.epoch == epoch
      && view.nullCipher == nullCipher && view.hasChangeCipherSpec == hasChangeCipherSpec
      && (forall i | 0 <= i < MAX_FLIGHT :: view.slots[i] == SlotOf(incoming[i]))
    }

    ghost predicate Owned(i: nat)
      requires incoming in Repr && i < incoming.Length && incoming[i] != null
      reads this, Repr
    {
      && incoming[i] in Repr && incoming[i].Repr <= Repr
      && this !in incoming[i].Repr && incoming !in incoming[i].Repr
      && incoming[i].Valid()
    }

    constructor ()
      ensures Valid() && fresh(Repr) && view == Initial()
    {
      incoming := new HmFragment?[7](_ => null);
      readSeq, hasMessage, epoch, nullCipher, hasChangeCipherSpec := 0, false, 0, true, false;
      view := Initial();
      new;
      Repr := {this, incoming};
    }

    /** dtls1_is_current_message_complete. */
    method IsCurrentComplete() returns (complete: bool)
      requires Valid()
      ensures complete <==> CurrentComplete(view)
    {
      var frag := incoming[readSeq % MAX_FLIGHT];
      assert frag != null ==> Owned(readSeq % MAX_FLIGHT);
      return frag != null && frag.reassembly == null;
    }

    /** dtls1_get_incoming_message; null is the failure. */
    method GetIncomingMessage(f: Fragment) returns (frag: HmFragment?)
      requires Valid() && Fits(f)
      modifies Repr
      ensures Valid() && fresh(Repr - old(Repr))
      ensures frag == null <==> !InWindow(old(view), f) || !Compatible(old(view), f)
      ensures frag == null ==> view == old(view)
      ensures frag != null ==> frag == incoming[f.number % MAX_FLIGHT] && view == Entered(old(view), f)
    {
      hide Upto, Between, Marks;
      if f.number < readSeq || f.number - readSeq >= MAX_FLIGHT {
        return null;
      }
      var i := f.number % MAX_FLIGHT;
      frag := incoming[i];
      if frag != null {
        assert Owned(i) && SlotOk(view, i);
        assert frag.number == f.number;
        if frag.typ != f.typ || frag.msgLen != f.msgLen {
          return null;
        }
        return frag;
      }
      frag := new HmFragment(f.typ, f.number, f.msgLen);
      Insert(frag, f);
    }

    method Insert(frag: HmFragment, f: Fragment)
      requires Valid() && Fits(f) && InWindow(view, f) && incoming[f.number % MAX_FLIGHT] == null
      requires frag.Valid() && frag.received == {} && frag.Repr !! Repr
      requires frag.typ == f.typ && frag.number == f.number && frag.msgLen == f.msgLen
      modifies incoming, `view, `Repr
      ensures Valid() && Repr == old(Repr) + frag.Repr
      ensures incoming[f.number % MAX_FLIGHT] == frag && view == Entered(old(view), f)
    {
      hide Upto, Between, Marks, RingOk, Entered;
      EnteredView(view, f);
      var i := f.number % MAX_FLIGHT;
      assert forall j | 0 <= j < MAX_FLIGHT && incoming[j] != null :: Owned(j);
      incoming[i] := frag;
      Repr := Repr + frag.Repr;
      view := Entered(view, f);
      assert frag.Got() == map[];
    }

    /** The copy into a slot that is still being assembled. */
    method Fill(frag: HmFragment, f: Fragment)
      requires Valid() && frag == incoming[f.number % MAX_FLIGHT]
      requires frag.reassembly != null && f.off + |f.body| <= frag.msgLen
      modifies Repr
      ensures Valid() && Repr == old(Repr)
      ensures view == Filled(old(view), f)
    {
      hide Upto, Between, Marks, RingOk, Overlay, Filled, HmFragment.Valid;
      var i := f.number % MAX_FLIGHT;
      assert forall j | 0 <= j < MAX_FLIGHT && incoming[j] != null :: Owned(j);
      FilledView(view, f);
      forall j | 0 <= j < MAX_FLIGHT && incoming[j] != null
        ensures incoming[j] in incoming[j].Repr && incoming[j].data in incoming[j].Repr
        ensures j != i ==> incoming[j].Repr !! frag.Repr
      {
        incoming[j].Facts();
      }
      frag.Facts();
      frag.Store(f.off, f.body);
      frag.Facts();
      view := Filled(view, f);
      assert view.slots[i] == SlotOf(frag);
    }

    /** One turn of the loop of dtls1_open_handshake. */
    method OpenFragment(f: Fragment, maxLen: nat) returns (ok: bool)
      requires Valid() && Fits(f)
      modifies Repr
      ensures Valid() && fresh(Repr - old(Repr))
      ensures (view, ok) == DtlsReceive.OpenFragment(old(view), f, maxLen)
    {
      hide Upto, Between, Marks, RingOk, Overlay, Entered, Filled, HmFragment.Valid;
      if f.off > f.msgLen || f.off + |f.body| > f.msgLen || f.msgLen > maxLen {
        return false;
      }
      if epoch == 1 && f.number != readSeq {
        return false;
      }
      if f.number < readSeq || f.number > readSeq + MAX_FLIGHT {
        return true;
      }
      ghost var before := view;
      var frag := GetIncomingMessage(f);
      if frag == null {
        return false;
      }
      EnteredSlot(before, f);
      assert Owned(f.number % MAX_FLIGHT);
      frag.Facts();
      if frag.reassembly == null {
        WholeStays(view, f);
        return true;
      }
      Fill(frag, f);
      return true;
    }

    /** dtls1_open_handshake, on a record that the record layer has opened. */
    method OpenHandshake(typ: nat, payload: seq<byte>, maxLen: nat) returns (out: Opened)
      requires Valid()
      modifies Repr
      ensures Valid() && fresh(Repr - old(Repr))
      ensures (view, out) == DtlsReceive.OpenHandshake(old(view), typ, payload, maxLen)
    {
      hide Upto, Between, Marks, RingOk, HmFragment.Valid, DtlsReceive.OpenFragment;
      if typ == RT_APPLICATION_DATA {
        return if nullCipher then Error else Discard;
      } else if typ == RT_CHANGE_CIPHER_SPEC {
        if !nullCipher || |payload| != 1 || payload[0] != 1 {
          return Error;
        }
        hasChangeCipherSpec := true;
        view := DtlsReceive.OpenHandshake(view, typ, payload, maxLen).0;
        return Success;
      } else if typ != RT_HANDSHAKE {
        return Error;
      }
      var cbs := payload;
      while |cbs| > 0
        invariant Valid() && fresh(Repr - old(Repr))
        invariant OpenFragments(old(view), payload, maxLen) == OpenFragments(view, cbs, maxLen)
      {
        match ParseFragment(cbs)
        case Fail => return Error;
        case Got(f, rest) =>
          var ok := OpenFragment(f, maxLen);
          if !ok { return Error; }
          cbs := rest;
      }
      return Success;
    }

    /** dtls1_open_change_cipher_spec, with the record to be read if none of them waits. */
    method OpenChangeCipherSpec(typ: nat, payload: seq<byte>, maxLen: nat) returns (out: Opened)
      requires Valid()
      modifies Repr
      ensures Valid() && fresh(Repr - old(Repr))
      ensures (view, out) == DtlsReceive.OpenChangeCipherSpec(old(view), typ, payload, maxLen)
    {
      hide Upto, Between, Marks, RingOk, HmFragment.Valid, DtlsReceive.OpenHandshake;
      if !hasChangeCipherSpec {
        out := OpenHandshake(typ, payload, maxLen);
        if out != Success { return; }
      }
      if hasChangeCipherSpec {
        hasChangeCipherSpec := false;
        view := Unflagged(view);
        return Success;
      }
      return Discard;
    }

    /** dtls1_get_message. */
    method GetMessage() returns (out: Option<Message>)
      requires Valid()
      modifies `hasMessage, `view
      ensures Valid() && out == DtlsReceive.GetMessage(old(view))
      ensures view == old(view).(hasMessage := old(view).hasMessage || out.Some?)
    {
      var complete := IsCurrentComplete();
      if !complete { return None; }
      var i := readSeq % MAX_FLIGHT;
      var frag := incoming[i];
      assert Owned(i);
      frag.Facts();
      out := Some(Message(frag.typ, frag.data[..]));
      assert frag.data[..] == Assembled(view.slots[i]);
      ViewFlag(view);
      hide RingOk;
      hasMessage := true;
      view := view.(hasMessage := true);
    }

    /** dtls1_next_message. */
    method NextMessage()
      requires Valid() && hasMessage && CurrentComplete(view)
      modifies this, incoming
      ensures Valid() && Repr == old(Repr) && view == DtlsReceive.NextMessage(old(view))
    {
      hide Upto, Between, Marks;
      assert forall j | 0 <= j < MAX_FLIGHT && incoming[j] != null :: Owned(j);
      var i := readSeq % MAX_FLIGHT;
      view := DtlsReceive.NextMessage(view);
      incoming[i] := null;
      readSeq := (readSeq + 1) % 0x1_0000;
      hasMessage := false;
    }

    /** dtls_has_unprocessed_handshake_data. */
    method HasUnprocessed() returns (some: bool)
      requires Valid()
      ensures some <==> Unprocessed(view)
    {
      if hasChangeCipherSpec { return true; }
      var current := readSeq % MAX_FLIGHT;
      for i := 0 to MAX_FLIGHT
        invariant forall j | 0 <= j < i :: (hasMessage && j == current) || view.slots[j] == Empty
      {
        if !(hasMessage && i == current) && incoming[i] != null { return true; }
      }
      return false;
    }

    /** dtls1_set_read_state, as far as it concerns the handshake; false is the refusal. */
    method SetReadState() returns (ok: bool)
      requires Valid()
      modifies this
      ensures Valid() && Repr == old(Repr)
      ensures DtlsReceive.SetReadState(old(view)) == if ok then Some(view) else None
      ensures !ok ==> view == old(view)
    {
      var leftover := HasUnprocessed();
      if leftover { return false; }
      view := DtlsReceive.SetReadState(view).value;
      epoch := (epoch + 1) % 0x1_0000;
      nullCipher := false;
      return true;
    }
  }
}
